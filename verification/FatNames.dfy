/** Short names: decoding directory entries, comparing names and splitting paths. */
module FatNames {
  import opened Options
  import opened Machine

  const SPACE: Byte := 0x20
  const DOT: Byte := 0x2E
  const SLASH: Byte := 0x2F
  const BACKSLASH: Byte := 0x5C
  const NAME_SIZE: nat := 13

  /** The bytes of a C string before its terminator. */
  type CString = s: seq<Byte> | 0 !in s

  function Upper(c: Byte): Byte {
    if 0x61 <= c <= 0x7A then c - 0x20 else c
  }

  function UpperAll(s: seq<Byte>): (r: seq<Byte>)
    ensures |r| == |s| && forall i :: 0 <= i < |s| ==> r[i] == Upper(s[i])
  {
    seq<Byte>(|s|, i requires 0 <= i < |s| => Upper(s[i]))
  }

  /** The part of a buffer a C string function sees: up to the first zero byte. */
  function CText(s: seq<Byte>): (r: seq<Byte>)
    ensures |r| <= |s| && r == s[..|r|] && 0 !in r && (|r| < |s| ==> s[|r|] == 0)
  {
    if s == [] || s[0] == 0 then [] else [s[0]] + CText(s[1..])
  }

  /** Byte i of a terminated buffer. */
  function At(s: seq<Byte>, i: nat): Byte {
    if i < |s| then s[i] else 0
  }

  // ------------------------------------------------------------- comparison

  predicate SameName(a: seq<Byte>, b: seq<Byte>) {
    UpperAll(CText(a)) == UpperAll(CText(b))
  }

  /** Byte for byte the same, or the two cases of one ASCII letter. */
  predicate CaseVariant(a: seq<Byte>, b: seq<Byte>) {
    && |a| == |b|
    && forall i :: 0 <= i < |a| ==>
         || a[i] == b[i]
         || (0x41 <= a[i] <= 0x5A && b[i] == a[i] + 0x20)
         || (0x41 <= b[i] <= 0x5A && a[i] == b[i] + 0x20)
  }

  lemma FoldedAlike(a: seq<Byte>, b: seq<Byte>)
    ensures UpperAll(a) == UpperAll(b) <==> CaseVariant(a, b)
  {
    if CaseVariant(a, b) {
      assert UpperAll(a) == UpperAll(b);
    } else if |a| == |b| {
      var i :| 0 <= i < |a| && !(|| a[i] == b[i]
                                 || (0x41 <= a[i] <= 0x5A && b[i] == a[i] + 0x20)
                                 || (0x41 <= b[i] <= 0x5A && a[i] == b[i] + 0x20));
      assert UpperAll(a)[i] != UpperAll(b)[i];
    }
  }

  /** Two names are the same exactly when the texts before their terminators differ in letter case at most. */
  lemma SameNameMeans(a: seq<Byte>, b: seq<Byte>)
    ensures SameName(a, b) <==> CaseVariant(CText(a), CText(b))
  {
    FoldedAlike(CText(a), CText(b));
  }

  /** names_equal: equality of the two C strings up to ASCII case. */
  method NamesEqual(a: seq<Byte>, b: seq<Byte>) returns (equal: bool)
    ensures equal <==> SameName(a, b)
    ensures equal <==> CaseVariant(CText(a), CText(b))
  {
    FoldedAlike(CText(a), CText(b));
    hide CaseVariant;
    var i := 0;
    while At(a, i) != 0 && At(b, i) != 0
      invariant 0 <= i <= |CText(a)| && i <= |CText(b)|
      invariant forall j :: 0 <= j < i ==> Upper(a[j]) == Upper(b[j])
      decreases |a| - i
    {
      var left, right := At(a, i), At(b, i);
      if 0x61 <= left <= 0x7A {
        left := left - 0x61 + 0x41;
      }
      if 0x61 <= right <= 0x7A {
        right := right - 0x61 + 0x41;
      }
      if left != right {
        assert UpperAll(CText(a))[i] != UpperAll(CText(b))[i];
        return false;
      }
      i := i + 1;
    }
    equal := At(a, i) == At(b, i);
    if equal {
      assert |CText(a)| == i == |CText(b)|;
      assert UpperAll(CText(a)) == UpperAll(CText(b));
    } else {
      assert |CText(a)| != |CText(b)|;
    }
  }

  // ------------------------------------------------------ directory entries

  /** A directory entry; the name without its terminator. */
  datatype Dirent = Dirent(name: seq<Byte>, attributes: Byte, size: Word, firstCluster: Word)

  predicate IsDirectory(e: Dirent) {
    BitAnd(e.attributes, 0x10) != 0
  }

  lemma DirectoryBit(e: Dirent)
    ensures IsDirectory(e) <==> e.attributes / 16 % 2 == 1
  {
    BitSixteen(e.attributes);
    hide BitAnd;
  }

  /** The attribute masks read bits 4 and 3: directory, and volume label. */
  lemma AttributeBits(e: Dirent, raw: seq<Byte>)
    requires |raw| == 32
    ensures IsDirectory(e) <==> e.attributes / 16 % 2 == 1
    ensures Live(raw) <==> raw[0] != 0 && raw[0] != 0xE5 && raw[11] != 0x0F && raw[11] / 8 % 2 == 0
  {
    DirectoryBit(e);
    BitEight(raw[11]);
    hide BitAnd, IsDirectory;
  }

  /** s without its trailing spaces. */
  function Trimmed(s: seq<Byte>): (r: seq<Byte>)
    ensures |r| <= |s| && r == s[..|r|] && (r != [] ==> r[|r| - 1] != SPACE)
    ensures forall i :: |r| <= i < |s| ==> s[i] == SPACE
  {
    if s == [] then [] else if s[|s| - 1] == SPACE then Trimmed(s[..|s| - 1]) else s
  }

  /** In use, not part of a long name and not a volume label. */
  predicate Live(raw: seq<Byte>)
    requires |raw| == 32
  {
    raw[0] != 0 && raw[0] != 0xE5 && raw[11] != 0x0F && BitAnd(raw[11], 0x08) == 0
  }

  function ShortName(raw: seq<Byte>): (name: seq<Byte>)
    requires |raw| == 32
    ensures |name| <= NAME_SIZE - 1
  {
    var base, ext := Trimmed(raw[..8]), Trimmed(raw[8..11]);
    if ext == [] then base else base + [DOT] + ext
  }

  function Decode(raw: seq<Byte>): Option<Dirent>
    requires |raw| == 32
  {
    if !Live(raw) then None
    else Some(Dirent(ShortName(raw), raw[11], LE32(raw[28], raw[29], raw[30], raw[31]),
                     0x1_0000 * LE16(raw[20], raw[21]) + LE16(raw[26], raw[27])))
  }

  /** entry_from_raw */
  method EntryFromRaw(raw: seq<Byte>) returns (r: Option<Dirent>)
    requires |raw| == 32
    ensures r == Decode(raw)
    ensures r.Some? ==> |r.value.name| <= NAME_SIZE - 1
  {
    if raw[0] == 0 || raw[0] == 0xE5 || raw[11] == 0x0F || BitAnd(raw[11], 0x08) != 0 {
      return None;
    }
    var baseEnd, extEnd := 8, 11;
    while baseEnd > 0 && raw[baseEnd - 1] == SPACE
      invariant 0 <= baseEnd <= 8 && Trimmed(raw[..8]) == Trimmed(raw[..baseEnd])
    {
      assert raw[..baseEnd][..baseEnd - 1] == raw[..baseEnd - 1];
      baseEnd := baseEnd - 1;
    }
    while extEnd > 8 && raw[extEnd - 1] == SPACE
      invariant 8 <= extEnd <= 11 && Trimmed(raw[8..11]) == Trimmed(raw[8..extEnd])
    {
      assert raw[8..extEnd][..extEnd - 8 - 1] == raw[8..extEnd - 1];
      extEnd := extEnd - 1;
    }
    assert Trimmed(raw[..8]) == raw[..baseEnd] && Trimmed(raw[8..11]) == raw[8..extEnd];
    hide Trimmed;
    var name := CopyName(raw, baseEnd, extEnd);
    r := Some(Dirent(name, raw[11], LE32(raw[28], raw[29], raw[30], raw[31]),
                     0x1_0000 * LE16(raw[20], raw[21]) + LE16(raw[26], raw[27])));
  }

  /** The copying loops of entry_from_raw. */
  method CopyName(raw: seq<Byte>, baseEnd: nat, extEnd: nat) returns (name: seq<Byte>)
    requires |raw| == 32 && baseEnd <= 8 <= extEnd <= 11
    ensures name == if extEnd > 8 then raw[..baseEnd] + [DOT] + raw[8..extEnd] else raw[..baseEnd]
  {
    name := [];
    var i := 0;
    while i < baseEnd
      invariant 0 <= i <= baseEnd && name == raw[..i]
    {
      name := name + [raw[i]];
      i := i + 1;
    }
    if extEnd > 8 {
      name := name + [DOT];
      i := 8;
      while i < extEnd
        invariant 8 <= i <= extEnd && name == raw[..baseEnd] + [DOT] + raw[8..i]
      {
        name := name + [raw[i]];
        i := i + 1;
      }
    }
  }

  // ------------------------------------------------------ encoding a slot

  /** A directory slot as the format lays it out: times and other fields the reader ignores are arbitrary. */
  function EncodeSlot(name: seq<Byte>, attributes: Byte, times: seq<Byte>, written: seq<Byte>, cluster: Word,
                      size: Word): (raw: seq<Byte>)
    requires |name| == 11 && |times| == 8 && |written| == 4
    ensures |raw| == 32
  {
    name + [attributes] + times + Bytes16(cluster / 0x1_0000) + written + Bytes16(cluster % 0x1_0000) + Bytes32(size)
  }

  /** The eleven name bytes of a base and an extension, padded with spaces. */
  function EncodeName(base: seq<Byte>, extension: seq<Byte>): (name: seq<Byte>)
    requires |base| <= 8 && |extension| <= 3
    ensures |name| == 11
  {
    Padded(base, 8) + Padded(extension, 3)
  }

  predicate NoTrailingSpace(s: seq<Byte>) {
    s != [] ==> s[|s| - 1] != SPACE
  }

  lemma EncodedFields(name: seq<Byte>, attributes: Byte, times: seq<Byte>, written: seq<Byte>, cluster: Word,
                      size: Word)
    requires |name| == 11 && |times| == 8 && |written| == 4
    ensures var raw := EncodeSlot(name, attributes, times, written, cluster, size);
            && raw[..11] == name && raw[11] == attributes
            && LE32(raw[28], raw[29], raw[30], raw[31]) == size
            && 0x1_0000 * LE16(raw[20], raw[21]) + LE16(raw[26], raw[27]) == cluster
  {
    hide ByteOf, LE32;
    var raw := EncodeSlot(name, attributes, times, written, cluster, size);
    var high, low := Bytes16(cluster / 0x1_0000), Bytes16(cluster % 0x1_0000);
    assert raw[20..22] == high && raw[26..28] == low && raw[28..32] == Bytes32(size);
    assert raw[20] == high[0] && raw[21] == high[1] && raw[26] == low[0] && raw[27] == low[1];
    WordFromBytes(size);
    hide EncodeSlot;
    Bytes16Back(cluster / 0x1_0000);
    Bytes16Back(cluster % 0x1_0000);
    hide LE16, Bytes16;
  }

  lemma PaddedTrims(s: seq<Byte>, n: nat)
    requires |s| <= n && NoTrailingSpace(s)
    ensures Trimmed(Padded(s, n)) == s
  {
    TrimmedIs(Padded(s, n), |s|);
    assert Padded(s, n)[..|s|] == s;
  }

  /**
   Decoding an encoded slot gives back the name with its dot, the attributes,
   the size and the first cluster, for every value of each; nothing exactly for
   free and deleted slots, long names and volume labels.
   */
  lemma SlotRoundTrip(base: seq<Byte>, extension: seq<Byte>, attributes: Byte, times: seq<Byte>, written: seq<Byte>,
                      cluster: Word, size: Word)
    requires |base| <= 8 && |extension| <= 3 && NoTrailingSpace(base) && NoTrailingSpace(extension)
    requires |times| == 8 && |written| == 4
    ensures Decode(EncodeSlot(EncodeName(base, extension), attributes, times, written, cluster, size))
            == if (base != [] && (base[0] == 0 || base[0] == 0xE5)) || attributes == 0x0F || attributes / 8 % 2 == 1
               then None
               else Some(Dirent(if extension == [] then base else base + [0x2E] + extension, attributes, size, cluster))
  {
    hide Trimmed, LE16, LE32, BitAnd, EncodeSlot, EncodeName;
    var name := EncodeName(base, extension);
    var raw := EncodeSlot(name, attributes, times, written, cluster, size);
    EncodedFields(name, attributes, times, written, cluster, size);
    EncodedName(raw, base, extension);
    BitEight(attributes);
  }

  lemma EncodedName(raw: seq<Byte>, base: seq<Byte>, extension: seq<Byte>)
    requires |raw| == 32 && |base| <= 8 && |extension| <= 3 && raw[..11] == EncodeName(base, extension)
    requires NoTrailingSpace(base) && NoTrailingSpace(extension)
    ensures ShortName(raw) == if extension == [] then base else base + [DOT] + extension
    ensures raw[0] == if base == [] then SPACE else base[0]
  {
    hide Trimmed;
    assert raw[..8] == raw[..11][..8] == Padded(base, 8) && raw[8..11] == raw[..11][8..] == Padded(extension, 3);
    assert raw[0] == raw[..8][0];
    PaddedTrims(base, 8);
    PaddedTrims(extension, 3);
  }

  // ---------------------------------------------------- padding a name back

  /** s cut or padded with spaces to n bytes. */
  function Padded(s: seq<Byte>, n: nat): (r: seq<Byte>)
    ensures |r| == n && forall i :: 0 <= i < n ==> r[i] == if i < |s| then s[i] else SPACE
  {
    seq<Byte>(n, i requires 0 <= i < n => if i < |s| then s[i] else SPACE)
  }

  /** Position of the first dot, or the length. */
  function FirstDot(s: seq<Byte>): (k: nat)
    ensures k <= |s| && DOT !in s[..k] && (k < |s| ==> s[k] == DOT)
  {
    if s == [] || s[0] == DOT then 0
    else
      assert s[1..][..FirstDot(s[1..])] == s[1..FirstDot(s[1..]) + 1];
      FirstDot(s[1..]) + 1
  }

  lemma FirstDotIs(s: seq<Byte>, k: nat)
    requires k <= |s| && DOT !in s[..k] && (k < |s| ==> s[k] == DOT)
    ensures FirstDot(s) == k
  {
  }

  /** The eleven directory bytes of a short name written with a dot. */
  function PadName(name: seq<Byte>): (r: seq<Byte>)
    ensures |r| == 11
  {
    var k := FirstDot(name);
    Padded(name[..k], 8) + Padded(if k < |name| then name[k + 1..] else [], 3)
  }

  /**
   Padding the decoded name, as a C string, gives back the eleven raw name
   bytes exactly when the base has no dot and no name byte is zero.
   */
  lemma NamePadsBack(raw: seq<Byte>)
    requires |raw| == 32
    ensures PadName(CText(ShortName(raw))) == raw[..11] <==> DOT !in Trimmed(raw[..8]) && 0 !in raw[..11]
  {
    if 0 in raw[..11] {
      ZeroByteLost(raw);
    } else {
      NoZeroNoCut(raw);
      if DOT in Trimmed(raw[..8]) {
        DottedBaseLost(raw);
      } else {
        PadsBack(raw);
      }
    }
  }

  /** With no zero byte, the whole name is the C string. */
  lemma NoZeroNoCut(raw: seq<Byte>)
    requires |raw| == 32 && 0 !in raw[..11]
    ensures CText(ShortName(raw)) == ShortName(raw)
  {
    var base, ext, name := Trimmed(raw[..8]), Trimmed(raw[8..11]), ShortName(raw);
    forall i | 0 <= i < |name| ensures name[i] != 0 {
      if i < |base| {
        assert name[i] == raw[..11][i];
      } else if i > |base| {
        assert name[i] == ext[i - |base| - 1] == raw[..11][8 + i - |base| - 1];
      }
    }
    assert |CText(name)| == |name|;
  }

  lemma PadsBack(raw: seq<Byte>)
    requires |raw| == 32 && DOT !in Trimmed(raw[..8])
    ensures PadName(ShortName(raw)) == raw[..11]
  {
    var base, ext, name := Trimmed(raw[..8]), Trimmed(raw[8..11]), ShortName(raw);
    assert name[..|base|] == base;
    FirstDotIs(name, |base|);
    assert Padded(base, 8) == raw[..8];
    assert (if |base| < |name| then name[|base| + 1..] else []) == ext;
    assert Padded(ext, 3) == raw[8..11];
    assert raw[..11] == raw[..8] + raw[8..11];
  }

  /** A dot inside the base is taken for the separator. */
  lemma DottedBaseLost(raw: seq<Byte>)
    requires |raw| == 32 && DOT in Trimmed(raw[..8])
    ensures PadName(ShortName(raw)) != raw[..11]
  {
    var base, name := Trimmed(raw[..8]), ShortName(raw);
    var k := FirstDot(name);
    var d :| 0 <= d < |base| && base[d] == DOT;
    assert name[..|base|] == base;
    assert k <= d;
    assert name[k] == base[k] == raw[..11][k];
    assert PadName(name)[k] == Padded(name[..k], 8)[k] == SPACE;
  }

  /** A zero byte ends the C string, and padding never brings one back. */
  lemma ZeroByteLost(raw: seq<Byte>)
    requires |raw| == 32 && 0 in raw[..11]
    ensures PadName(CText(ShortName(raw))) != raw[..11]
  {
    var i :| 0 <= i < 11 && raw[..11][i] == 0;
    PadNameNonzero(CText(ShortName(raw)), i);
    hide PadName, ShortName, CText;
  }

  lemma PadNameNonzero(text: seq<Byte>, j: nat)
    requires 0 !in text && j < 11
    ensures PadName(text)[j] != 0
  {
    var k := FirstDot(text);
    var extension := if k < |text| then text[k + 1..] else [];
    hide FirstDot;
    if j < 8 {
      assert PadName(text)[j] == Padded(text[..k], 8)[j];
    } else {
      assert PadName(text)[j] == Padded(extension, 3)[j - 8];
    }
  }

  /** Without the dot condition two different entries can decode to one name. */
  lemma DotsCollide()
    ensures var a := [0x41, DOT, 0x42, SPACE, SPACE, SPACE, SPACE, SPACE, SPACE, SPACE, SPACE] + seq<Byte>(21, _ => 0);
            var b := [0x41, SPACE, SPACE, SPACE, SPACE, SPACE, SPACE, SPACE, 0x42, SPACE, SPACE]
                     + seq<Byte>(21, _ => 0);
            Live(a) && Live(b) && ShortName(a) == ShortName(b) == [0x41, DOT, 0x42] && a[..11] != b[..11]
  {
    var a := [0x41, DOT, 0x42, SPACE, SPACE, SPACE, SPACE, SPACE, SPACE, SPACE, SPACE] + seq<Byte>(21, _ => 0);
    var b := [0x41, SPACE, SPACE, SPACE, SPACE, SPACE, SPACE, SPACE, 0x42, SPACE, SPACE] + seq<Byte>(21, _ => 0);
    TrimmedIs(a[..8], 3);
    TrimmedIs(a[8..11], 0);
    TrimmedIs(b[..8], 1);
    TrimmedIs(b[8..11], 1);
    assert a[..8][..3] == [0x41, DOT, 0x42] && b[..8][..1] == [0x41] && b[8..11][..1] == [0x42];
    assert a[1] != b[1];
  }

  lemma TrimmedIs(s: seq<Byte>, n: nat)
    requires n <= |s| && (n > 0 ==> s[n - 1] != SPACE) && forall i :: n <= i < |s| ==> s[i] == SPACE
    ensures Trimmed(s) == s[..n]
  {
  }

  /** Entries that pad back are told apart by their names. */
  lemma NamesAreInjective(a: seq<Byte>, b: seq<Byte>)
    requires |a| == |b| == 32
    requires DOT !in Trimmed(a[..8]) && 0 !in a[..11] && DOT !in Trimmed(b[..8]) && 0 !in b[..11]
    ensures CText(ShortName(a)) == CText(ShortName(b)) <==> a[..11] == b[..11]
  {
    NamePadsBack(a);
    NamePadsBack(b);
    if a[..11] == b[..11] {
      assert a[..8] == a[..11][..8] == b[..11][..8] == b[..8];
      assert a[8..11] == a[..11][8..] == b[..11][8..] == b[8..11];
    }
  }
}
