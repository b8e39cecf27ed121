/** Splitting a path into components, and which paths split alike. */
module FatPath {
  import opened Machine
  import opened FatNames

  /** A component in upper case, or one too long to be a short name, which ends the list. */
  datatype Part = Name(name: seq<Byte>) | Overlong

  predicate Separator(c: Byte) {
    c == SLASH || c == BACKSLASH
  }

  /** How many bytes precede the first separator. */
  function RunLength(path: seq<Byte>): (n: nat)
    ensures n <= |path| && (forall i :: 0 <= i < n ==> !Separator(path[i])) && (n < |path| ==> Separator(path[n]))
  {
    if path == [] || Separator(path[0]) then 0 else 1 + RunLength(path[1..])
  }

  function Parts(path: seq<Byte>): seq<Part>
    decreases |path|
  {
    if path == [] then []
    else if Separator(path[0]) then Parts(path[1..])
    else
      var n := RunLength(path);
      if n > NAME_SIZE - 1 then [Overlong] else [Name(UpperAll(path[..n]))] + Parts(path[n..])
  }

  lemma RunLengthIs(path: seq<Byte>, n: nat)
    requires n <= |path| && (forall i :: 0 <= i < n ==> !Separator(path[i])) && (n < |path| ==> Separator(path[n]))
    ensures RunLength(path) == n
  {
  }

  /** component: the next component at position, or why there is none. */
  method Component(path: CString, position: nat) returns (code: int, part: seq<Byte>, next: nat)
    requires position <= |path|
    ensures position <= next <= |path|
    ensures var rest := Parts(path[position..]);
            || (code == 1 && 0 < |part| <= NAME_SIZE - 1 && 0 !in part && rest == [Name(part)] + Parts(path[next..])
                && position < next && UpperAll(part) == part)
            || (code == 0 && rest == [] && part == [] && next == |path|)
            || (code == -1 && rest == [Overlong] && next == position)
  {
    hide Parts, UpperAll, RunLength;
    var p := SkipSeparators(path, position);
    if At(path, p) == 0 {
      return 0, [], p;
    }
    ghost var rest := path[p..];
    var fits, copied := CopyPart(path, p);
    if !fits {
      LongPart(rest);
      return -1, [], position;
    }
    next := p + |copied|;
    assert rest[..|copied|] == copied && rest[|copied|..] == path[next..];
    FirstPart(rest, |copied|);
    UpperKeeps(copied);
    return 1, UpperAll(copied), next;
  }

  /** The copying loop of component: the bytes up to the next separator, if they fit. */
  method CopyPart(path: CString, start: nat) returns (fits: bool, part: seq<Byte>)
    requires start < |path| && !Separator(path[start])
    ensures fits <==> RunLength(path[start..]) <= NAME_SIZE - 1
    ensures fits ==> |part| == RunLength(path[start..]) > 0 && part == path[start..start + |part|]
  {
    hide Parts;
    ghost var rest := path[start..];
    var p, i := start, 0;
    part := [];
    while At(path, p) != 0 && At(path, p) != SLASH && At(path, p) != BACKSLASH
      invariant start <= p <= |path| && i == p - start && i <= NAME_SIZE - 1
      invariant part == path[start..p]
      invariant forall k :: 0 <= k < i ==> !Separator(rest[k])
      decreases |path| - p
    {
      assert rest[i] == path[p] && !Separator(rest[i]);
      if i >= NAME_SIZE - 1 {
        assert RunLength(rest) > NAME_SIZE - 1;
        return false, [];
      }
      part := part + [path[p]];
      i, p := i + 1, p + 1;
    }
    RunLengthIs(rest, i);
    fits := true;
  }

  lemma FirstPart(path: seq<Byte>, n: nat)
    requires path != [] && !Separator(path[0]) && RunLength(path) == n <= NAME_SIZE - 1
    ensures Parts(path) == [Name(UpperAll(path[..n]))] + Parts(path[n..])
  {
  }

  lemma LongPart(path: seq<Byte>)
    requires path != [] && !Separator(path[0]) && RunLength(path) > NAME_SIZE - 1
    ensures Parts(path) == [Overlong]
  {
  }

  lemma UpperKeeps(s: seq<Byte>)
    ensures UpperAll(UpperAll(s)) == UpperAll(s)
    ensures 0 !in s ==> 0 !in UpperAll(s)
  {
  }

  /** Skipping separators skips no component. */
  method SkipSeparators(path: CString, position: nat) returns (p: nat)
    requires position <= |path|
    ensures position <= p <= |path| && Parts(path[p..]) == Parts(path[position..])
    ensures p < |path| ==> !Separator(path[p])
    ensures p == |path| <==> Parts(path[position..]) == []
  {
    p := position;
    while At(path, p) == SLASH || At(path, p) == BACKSLASH
      invariant position <= p <= |path| && Parts(path[p..]) == Parts(path[position..])
      decreases |path| - p
    {
      assert path[p..][1..] == path[p + 1..];
      p := p + 1;
    }
    assert p < |path| ==> path[p..][0] == path[p];
  }

  // ------------------------------------------------------ equivalent paths

  function FoldByte(c: Byte): Byte {
    if c == BACKSLASH then SLASH else Upper(c)
  }

  /** The path with slashes for backslashes and capitals for small letters. */
  function Folded(path: seq<Byte>): (r: seq<Byte>)
    ensures |r| == |path| && forall i :: 0 <= i < |path| ==> r[i] == FoldByte(path[i])
  {
    seq<Byte>(|path|, i requires 0 <= i < |path| => FoldByte(path[i]))
  }

  /** Which separator is written and the case of letters do not matter. */
  lemma {:induction false} FoldingKeepsParts(path: seq<Byte>)
    ensures Parts(Folded(path)) == Parts(path)
    decreases |path|
  {
    if path != [] {
      var f := Folded(path);
      if Separator(path[0]) {
        assert f[1..] == Folded(path[1..]);
        FoldingKeepsParts(path[1..]);
      } else {
        var n := RunLength(path);
        RunLengthIs(f, n);
        assert f[n..] == Folded(path[n..]);
        assert UpperAll(f[..n]) == UpperAll(path[..n]);
        FoldingKeepsParts(path[n..]);
      }
    }
  }

  /** A separator splits the component list, unless a component before it is too long. */
  lemma {:induction false} SeparatorSplits(a: seq<Byte>, c: Byte, b: seq<Byte>)
    requires Separator(c)
    ensures Parts(a + [c] + b) == if Overlong in Parts(a) then Parts(a) else Parts(a) + Parts(b)
    decreases |a|
  {
    hide Parts, RunLength, UpperAll;
    var whole := a + [c] + b;
    NoParts();
    if a == [] {
      assert whole[1..] == b;
      SeparatorSkipped(whole);
    } else if Separator(a[0]) {
      assert whole[1..] == a[1..] + [c] + b;
      SeparatorSkipped(whole);
      SeparatorSkipped(a);
      SeparatorSplits(a[1..], c, b);
    } else {
      var n := RunLength(a);
      SameRun(a, c, b, n);
      if n > NAME_SIZE - 1 {
        LongPart(a);
        LongPart(whole);
      } else {
        FirstPart(a, n);
        FirstPart(whole, n);
        SomeRun(a);
        SeparatorSplits(a[n..], c, b);
      }
    }
  }

  lemma NoParts()
    ensures Parts([]) == []
  {
  }

  lemma SeparatorSkipped(path: seq<Byte>)
    requires path != [] && Separator(path[0])
    ensures Parts(path) == Parts(path[1..])
  {
  }

  lemma SomeRun(path: seq<Byte>)
    requires path != [] && !Separator(path[0])
    ensures 0 < RunLength(path) <= |path|
  {
  }

  lemma SameRun(a: seq<Byte>, c: Byte, b: seq<Byte>, n: nat)
    requires Separator(c) && n == RunLength(a)
    ensures var whole := a + [c] + b;
            RunLength(whole) == n && whole[..n] == a[..n] && whole[n..] == a[n..] + [c] + b
  {
    RunLengthIs(a + [c] + b, n);
  }

  /** A path of names, each behind a separator. */
  function Joined(names: seq<seq<Byte>>, c: Byte): seq<Byte> {
    if names == [] then [] else [c] + names[0] + Joined(names[1..], c)
  }

  /** What such a path is made of: names of at most twelve bytes, or the end at the first longer one. */
  function Components(names: seq<seq<Byte>>): seq<Part> {
    if names == [] then []
    else if |names[0]| > 12 then [Overlong]
    else [Name(UpperAll(names[0]))] + Components(names[1..])
  }

  /** Splitting undoes joining. */
  lemma {:induction false} JoinedSplits(names: seq<seq<Byte>>, c: Byte)
    requires c == 0x2F || c == 0x5C
    requires forall n :: n in names ==> n != [] && 0x2F !in n && 0x5C !in n
    ensures Parts(Joined(names, c)) == Components(names)
  {
    if names != [] {
      var name, rest := names[0], Joined(names[1..], c);
      assert name in names && forall n :: n in names[1..] ==> n in names;
      JoinedSplits(names[1..], c);
      assert ([c] + name + rest)[1..] == name + rest;
      RunLengthIs(name + rest, |name|);
      assert (name + rest)[..|name|] == name && (name + rest)[|name|..] == rest;
    }
  }

  /** Leading, trailing and repeated separators do not matter. */
  lemma ExtraSeparators(a: seq<Byte>, c1: Byte, c2: Byte, b: seq<Byte>)
    requires Separator(c1) && Separator(c2)
    ensures Parts([c1] + b) == Parts(b)
    ensures Parts(a + [c1]) == Parts(a)
    ensures Parts(a + [c1] + [c2] + b) == Parts(a + [c1] + b)
  {
    SeparatorSplits([], c1, b);
    assert [] + [c1] + b == [c1] + b;
    SeparatorSplits(a, c1, []);
    assert a + [c1] + [] == a + [c1];
    SeparatorSplits(a + [c1], c2, b);
    SeparatorSplits(a, c1, b);
  }
}
