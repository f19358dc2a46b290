/** String and list helpers that stand in for the Python built-ins the
    configuration code relies on: `str.upper`, `str.split`, `list.index`. */
module Text {

  /** The upper-case form of one character, ASCII letters only. */
  function UpperChar(c: char): char {
    if 'a' <= c <= 'z' then (c as int - 32) as char else c
  }

  /** No lower-case ASCII letter occurs in `s`. */
  predicate IsUpper(s: string) {
    forall i :: 0 <= i < |s| ==> !('a' <= s[i] <= 'z')
  }

  /** `s.upper()`, restricted to ASCII letters; every other character is kept. */
  function Upper(s: string): (r: string)
    ensures |r| == |s|
    ensures IsUpper(r)
    ensures forall i :: 0 <= i < |s| && !('a' <= s[i] <= 'z') ==> r[i] == s[i]
    ensures forall i :: 0 <= i < |s| && 'a' <= s[i] <= 'z' ==> r[i] as int == s[i] as int - 32 && 'A' <= r[i] <= 'Z'
  {
    seq(|s|, i requires 0 <= i < |s| => UpperChar(s[i]))
  }

  /** Upper-casing a string that is already upper case changes nothing. */
  lemma UpperOfUpper(s: string)
    requires IsUpper(s)
    ensures Upper(s) == s
  {
    assert forall i :: 0 <= i < |s| ==> Upper(s)[i] == s[i];
  }

  /** Concatenation keeps strings upper case. */
  lemma UpperConcat(a: string, b: string)
    requires IsUpper(a) && IsUpper(b)
    ensures IsUpper(a + b)
  {
    forall i | 0 <= i < |a + b|
      ensures !('a' <= (a + b)[i] <= 'z')
    {
      if i >= |a| {
        assert (a + b)[i] == b[i - |a|];
      }
    }
  }

  /** `xs.index(x)` guarded by `x in xs`: the position of the first occurrence
      of `x`, or `|xs|` when `x` does not occur. */
  function FirstIndex<T(==)>(xs: seq<T>, x: T): (i: nat)
    ensures i <= |xs|
    ensures i < |xs| ==> xs[i] == x
    ensures forall j :: 0 <= j < i ==> xs[j] != x
    ensures i == |xs| <==> x !in xs
  {
    if xs == [] then 0
    else if xs[0] == x then 0
    else 1 + FirstIndex(xs[1..], x)
  }

  /** The first occurrence of `x` in `a + b` is at `|a|` when `a` lacks `x`
      and `b` starts with it. */
  lemma FirstIndexAfterPrefix<T>(a: seq<T>, b: seq<T>, x: T)
    requires x !in a && |b| > 0 && b[0] == x
    ensures FirstIndex(a + b, x) == |a|
  {
    assert (a + b)[|a|] == x;
  }

  /** `sep` occurs in `s` starting at position `j`. */
  predicate OccursAt(s: string, sep: string, j: int) {
    0 <= j && j + |sep| <= |s| && s[j..j + |sep|] == sep
  }

  /** `sep` occurs somewhere in `s`. */
  ghost predicate Contains(s: string, sep: string) {
    exists j :: OccursAt(s, sep, j)
  }

  /** The start of the leftmost occurrence of a non-empty `sep` in `s` at or
      after `from`, or `|s|` when there is none. */
  function FindFrom(s: string, sep: string, from: nat): (i: nat)
    requires |sep| > 0 && from <= |s|
    ensures from <= i <= |s|
    ensures i < |s| ==> OccursAt(s, sep, i)
    ensures forall j :: from <= j < i ==> !OccursAt(s, sep, j)
    ensures i == |s| ==> forall j :: from <= j ==> !OccursAt(s, sep, j)
    decreases |s| - from
  {
    if from + |sep| > |s| then |s|
    else if s[from..from + |sep|] == sep then from
    else FindFrom(s, sep, from + 1)
  }

  /** The leftmost occurrence of a non-empty `sep` in `s`, or `|s|`. */
  function FindSub(s: string, sep: string): (i: nat)
    requires |sep| > 0
    ensures i <= |s|
    ensures i < |s| ==> OccursAt(s, sep, i)
    ensures forall j :: 0 <= j < i ==> !OccursAt(s, sep, j)
    ensures i == |s| ==> !Contains(s, sep)
  {
    FindFrom(s, sep, 0)
  }

  /** No occurrence of `sep` lies wholly inside the part of `s` before the
      leftmost occurrence. */
  lemma NoMatchBeforeFirst(s: string, sep: string)
    requires |sep| > 0
    ensures !Contains(s[..FindSub(s, sep)], sep)
  {
    var i := FindSub(s, sep);
    if Contains(s[..i], sep) {
      var j :| OccursAt(s[..i], sep, j);
      assert s[..i][j..j + |sep|] == s[j..j + |sep|];
      assert OccursAt(s, sep, j);
    }
  }

  /** `s.split(sep)` for a non-empty separator: the pieces between the
      leftmost non-overlapping occurrences of `sep`, read left to right. */
  function Split(s: string, sep: string): (r: seq<string>)
    requires |sep| > 0
    ensures |r| >= 1
    ensures !Contains(s, sep) ==> r == [s]
    decreases |s|
  {
    var i := FindSub(s, sep);
    if i == |s| then [s]
    else [s[..i]] + Split(s[i + |sep|..], sep)
  }

  /** No piece of a split contains the separator. */
  lemma {:induction false} SplitPiecesLackSeparator(s: string, sep: string)
    requires |sep| > 0
    ensures forall k :: 0 <= k < |Split(s, sep)| ==> !Contains(Split(s, sep)[k], sep)
    decreases |s|
  {
    var i := FindSub(s, sep);
    if i < |s| {
      var rest := s[i + |sep|..];
      var pieces := Split(rest, sep);
      var r := Split(s, sep);
      SplitStep(s, sep);
      SplitPiecesLackSeparator(rest, sep);
      NoMatchBeforeFirst(s, sep);
      forall k | 0 <= k < |r|
        ensures !Contains(r[k], sep)
      {
        if k > 0 {
          assert r[k] == pieces[k - 1];
        }
      }
    }
  }

  /** `sep.join(ts)`: the pieces with one `sep` between neighbours. */
  function Join(ts: seq<string>, sep: string): string
    decreases |ts|
  {
    if |ts| == 0 then ""
    else if |ts| == 1 then ts[0]
    else ts[0] + sep + Join(ts[1..], sep)
  }

  /** Joining a piece in front of a non-empty list puts one `sep` after it. */
  lemma JoinCons(t: string, ts: seq<string>, sep: string)
    requires |ts| >= 1
    ensures Join([t] + ts, sep) == t + sep + Join(ts, sep)
  {
    assert ([t] + ts)[1..] == ts;
  }

  /** A string is its prefix, a middle part and its suffix. */
  lemma Decompose(s: string, i: nat, k: nat)
    requires i + k <= |s|
    ensures s == s[..i] + s[i..i + k] + s[i + k..]
  {
  }

  /** Splitting at a found separator gives the part before it, then the
      split of what follows it. */
  lemma SplitStep(s: string, sep: string)
    requires |sep| > 0 && FindSub(s, sep) < |s|
    ensures Split(s, sep) == [s[..FindSub(s, sep)]] + Split(s[FindSub(s, sep) + |sep|..], sep)
  {
  }

  /** Splitting loses nothing: joining the pieces back gives the input. */
  lemma {:induction false} JoinSplit(s: string, sep: string)
    requires |sep| > 0
    ensures Join(Split(s, sep), sep) == s
    decreases |s|
  {
    var i := FindSub(s, sep);
    if i < |s| {
      var head, rest := s[..i], s[i + |sep|..];
      SplitStep(s, sep);
      JoinSplit(rest, sep);
      JoinCons(head, Split(rest, sep), sep);
      Decompose(s, i, |sep|);
    }
  }
}
