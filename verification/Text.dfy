/** The string and slice operations of Rust's standard library that the daemon is built from. */
module Text {
  import opened Wrappers

  lemma Regroup<T>(a: seq<T>, b: seq<T>, c: seq<T>)
    ensures a + b + c == a + (b + c)
  {
  }

  /** `split_once`: cut at the first `c`. */
  function SplitOnce<T(==)>(s: seq<T>, c: T): (r: Option<(seq<T>, seq<T>)>)
    ensures r.None? <==> c !in s
    ensures r.Some? ==> s == r.value.0 + [c] + r.value.1 && c !in r.value.0
  {
    if s == [] then None
    else if s[0] == c then Some(([], s[1..]))
    else match SplitOnce(s[1..], c)
      case None => None
      case Some(cut) =>
        assert s == [s[0]] + (cut.0 + [c] + cut.1);
        Some(([s[0]] + cut.0, cut.1))
  }

  /** `rsplit_once`: cut at the last `c`. */
  function RSplitOnce<T(==)>(s: seq<T>, c: T): (r: Option<(seq<T>, seq<T>)>)
    ensures r.None? <==> c !in s
    ensures r.Some? ==> s == r.value.0 + [c] + r.value.1 && c !in r.value.1
  {
    if s == [] then None
    else
      var n := |s| - 1;
      if s[n] == c then Some((s[..n], []))
      else match RSplitOnce(s[..n], c)
        case None => None
        case Some(cut) =>
          assert s == (cut.0 + [c] + cut.1) + [s[n]];
          Some((cut.0, cut.1 + [s[n]]))
  }

  /** A cut whose left part has no `c` is determined by the whole. */
  lemma FirstCutUnique<T>(a: seq<T>, b: seq<T>, a': seq<T>, b': seq<T>, c: T)
    requires a + [c] + b == a' + [c] + b'
    requires c !in a && c !in a'
    ensures a == a' && b == b'
  {
    var s := a + [c] + b;
    assert s[|a|] == c && s[|a'|] == c;
    assert forall i :: 0 <= i < |a| ==> s[i] == a[i];
    assert forall i :: 0 <= i < |a'| ==> s[i] == a'[i];
    assert |a| == |a'|;
    assert a == s[..|a|] && b == s[|a| + 1..];
    assert a' == s[..|a|] && b' == s[|a| + 1..];
  }

  /** A cut whose right part has no `c` is determined by the whole. */
  lemma LastCutUnique<T>(a: seq<T>, b: seq<T>, a': seq<T>, b': seq<T>, c: T)
    requires a + [c] + b == a' + [c] + b'
    requires c !in b && c !in b'
    ensures a == a' && b == b'
  {
    var s := a + [c] + b;
    assert s[|a|] == c && s[|a'|] == c;
    assert forall i :: |a| < i < |s| ==> s[i] == b[i - |a| - 1];
    assert forall i :: |a'| < i < |s| ==> s[i] == b'[i - |a'| - 1];
    assert |a| == |a'|;
    assert a == s[..|a|] && b == s[|a| + 1..];
    assert a' == s[..|a|] && b' == s[|a| + 1..];
  }

  /** `split`: the pieces between the separators, empty ones included. */
  function Split<T(==)>(s: seq<T>, c: T): (parts: seq<seq<T>>)
    ensures parts != []
    ensures forall p <- parts :: c !in p
    decreases |s|
  {
    match SplitOnce(s, c)
    case None => [s]
    case Some(cut) => [cut.0] + Split(cut.1, c)
  }

  lemma SplitCut<T>(a: seq<T>, b: seq<T>, c: T)
    requires c !in a
    ensures Split(a + [c] + b, c) == [a] + Split(b, c)
  {
    var s := a + [c] + b;
    assert s[|a|] == c;
    var cut := SplitOnce(s, c).value;
    FirstCutUnique(cut.0, cut.1, a, b, c);
  }

  lemma {:induction false} SplitAppend<T>(a: seq<T>, b: seq<T>, c: T)
    ensures Split(a + [c] + b, c) == Split(a, c) + Split(b, c)
    decreases |a|
  {
    match SplitOnce(a, c)
    case None => SplitCut(a, b, c);
    case Some(first) =>
      var rest := first.1 + [c] + b;
      assert a + [c] + b == first.0 + [c] + rest;
      SplitCut(first.0, rest, c);
      SplitAppend(first.1, b, c);
      assert [first.0] + (Split(first.1, c) + Split(b, c)) == ([first.0] + Split(first.1, c)) + Split(b, c);
  }

  function Join<T>(parts: seq<seq<T>>, c: T): seq<T>
    requires parts != []
  {
    if |parts| == 1 then parts[0] else parts[0] + [c] + Join(parts[1..], c)
  }

  /** Splitting and joining are inverse: joining separator-free pieces and splitting gives them back. */
  lemma {:induction false} SplitJoin<T>(parts: seq<seq<T>>, c: T)
    requires parts != []
    requires forall p <- parts :: c !in p
    ensures Split(Join(parts, c), c) == parts
  {
    if |parts| == 1 {
    } else {
      SplitCut(parts[0], Join(parts[1..], c), c);
      SplitJoin(parts[1..], c);
    }
  }

  lemma {:induction false} JoinSplit<T>(s: seq<T>, c: T)
    ensures Join(Split(s, c), c) == s
    decreases |s|
  {
    match SplitOnce(s, c)
    case None =>
    case Some(cut) =>
      JoinSplit(cut.1, c);
      assert Split(s, c)[1..] == Split(cut.1, c);
  }

  lemma {:induction false} JoinAppend<T>(p: seq<seq<T>>, q: seq<seq<T>>, c: T)
    requires p != [] && q != []
    ensures Join(p + q, c) == Join(p, c) + [c] + Join(q, c)
    decreases |p|
  {
    assert (p + q)[1..] == p[1..] + q;
    if |p| == 1 {
      assert p[1..] + q == q;
    } else {
      JoinAppend(p[1..], q, c);
    }
  }

  /** `to_ascii_lowercase` on one character. */
  function LowerChar(c: char): char {
    if 'A' <= c <= 'Z' then ((c as int) + 32) as char else c
  }

  const CAPITALS: string := "ABCDEFGHIJKLMNOPQRSTUVWXYZ"
  const SMALL: string := "abcdefghijklmnopqrstuvwxyz"

  /** Exactly the 26 capitals of ASCII are changed, each to the small letter at its place in the alphabet. */
  lemma LowerCharExactly(c: char, d: char)
    ensures LowerChar(c) == d
       <==> || (exists i :: 0 <= i < 26 && c == CAPITALS[i] && d == SMALL[i])
            || (c !in CAPITALS && d == c)
  {
    CapitalsInOrder();
    SmallInOrder();
    if 'A' <= c <= 'Z' {
      assert CAPITALS[c as int - 'A' as int] == c;
    }
  }

  lemma CapitalsInOrder()
    ensures |CAPITALS| == 26 && forall i :: 0 <= i < 26 ==> CAPITALS[i] as int == 'A' as int + i
  {
  }

  lemma SmallInOrder()
    ensures |SMALL| == 26 && forall i :: 0 <= i < 26 ==> SMALL[i] as int == 'a' as int + i
  {
  }

  function Lower(s: string): (r: string)
    ensures |r| == |s|
    ensures forall i :: 0 <= i < |s| ==> r[i] == LowerChar(s[i])
  {
    seq(|s|, i requires 0 <= i < |s| => LowerChar(s[i]))
  }

  lemma LowerTwice(s: string)
    ensures Lower(Lower(s)) == Lower(s)
  {
  }

  predicate EndsWith<T(==)>(s: seq<T>, suffix: seq<T>) {
    |suffix| <= |s| && s[|s| - |suffix|..] == suffix
  }

  /** Text that stays on one line. */
  predicate OneLine(s: string) {
    '\n' !in s
  }
}
