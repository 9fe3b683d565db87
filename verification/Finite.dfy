/** Counting over finite ranges. */
module Finite {

  lemma {:induction false} RangeFull(n: nat, s: set<nat>)
    requires forall v :: v in s ==> v < n
    ensures |s| <= n
    ensures |s| == n ==> forall v :: 0 <= v < n ==> v in s
  {
    if n == 0 {
      assert forall v :: v in s ==> false;
      assert s == {};
    } else {
      var m := n - 1;
      RangeFull(m, s - {m});
      assert m !in s ==> s - {m} == s;
      if |s| == n {
        forall v | 0 <= v < m ensures v in s { assert v in s - {m}; }
      }
    }
  }

  ghost function Elements(s: seq<nat>): (r: set<nat>)
    ensures forall v :: v in r <==> v in s
  {
    set v | v in s
  }

  lemma {:induction false} ElementsSize(s: seq<nat>)
    ensures |Elements(s)| <= |s|
    ensures (forall i, j :: 0 <= i < j < |s| ==> s[i] != s[j]) ==> |Elements(s)| == |s|
  {
    if s == [] {
      assert Elements(s) == {};
    } else {
      ElementsSize(s[1..]);
      assert Elements(s) == {s[0]} + Elements(s[1..]);
    }
  }

  /** A sequence that mentions every value below n has at least n entries. */
  lemma CoverSize(s: seq<nat>, n: nat)
    requires forall v :: 0 <= v < n ==> v in s
    ensures n <= |s|
  {
    var r := seq(n, i => i);
    ElementsSize(r);
    SubsetSize(Elements(r), Elements(s));
    ElementsSize(s);
  }

  lemma {:induction false} SubsetSize(a: set<nat>, b: set<nat>)
    requires a <= b
    ensures |a| <= |b|
  {
    if a != {} {
      var x :| x in a;
      SubsetSize(a - {x}, b - {x});
    }
  }

  /** A repetition-free list of all that lies below light or behind the gap mentions each of it. */
  lemma GapFull(p: seq<nat>, light: nat, gap: nat, r: nat)
    requires light <= |p| && forall i, j :: 0 <= i < j < |p| ==> p[i] != p[j]
    requires forall i :: 0 <= i < |p| ==> p[i] < light || light + gap <= p[i] < |p| + gap
    requires r < light || light + gap <= r < |p| + gap
    ensures r in p
  {
    var n := |p|;
    var s: seq<nat> := seq(n, i requires 0 <= i < n => if p[i] < light then p[i] else p[i] - gap);
    assert forall i, j :: 0 <= i < j < n ==> s[i] != s[j] by {
      forall i, j | 0 <= i < j < n ensures s[i] != s[j] { assert p[i] != p[j]; }
    }
    ElementsSize(s);
    RangeFull(n, Elements(s));
    var x := if r < light then r else r - gap;
    assert x in s;
    var i :| 0 <= i < n && s[i] == x;
    assert p[i] == r;
  }
}
