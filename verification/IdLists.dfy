/**
 Ascending document-id lists and the two-index loops that combine them
 (src/search/filter.rs, intersect_ids, union_ids, complement_ids).
 */
module IdLists {

  ghost predicate Ascending(s: seq<nat>) {
    forall i, j :: 0 <= i < j < |s| ==> s[i] < s[j]
  }

  lemma Extend(s: seq<nat>, x: nat)
    requires Ascending(s) && forall y: nat :: y in s ==> y < x
    ensures Ascending(s + [x])
    ensures forall y: nat :: y in s + [x] <==> y in s || y == x
  {
    var t := s + [x];
    forall i, j | 0 <= i < j < |t| ensures t[i] < t[j] {
      assert t[i] == s[i] && s[i] in s;
    }
  }

  lemma Append(s: seq<nat>, t: seq<nat>)
    requires Ascending(s) && Ascending(t)
    requires forall x: nat, y: nat :: x in s && y in t ==> x < y
    ensures Ascending(s + t)
  {
    var u := s + t;
    forall i, j | 0 <= i < j < |u| ensures u[i] < u[j] {
      if i < |s| <= j {
        assert u[i] in s && u[j] in t;
      }
    }
  }

  /** The head of what is left is the least of it. */
  lemma Rest(a: seq<nat>, i: nat)
    requires Ascending(a) && i <= |a|
    ensures Ascending(a[i..])
    ensures i < |a| ==> forall x: nat :: x in a[i..] <==> x == a[i] || x in a[i + 1..]
    ensures i < |a| ==> forall x: nat :: x in a[i..] ==> a[i] <= x
  {
    if i < |a| {
      assert a[i..] == [a[i]] + a[i + 1..];
    }
  }

  method IntersectIds(a: seq<nat>, b: seq<nat>) returns (out: seq<nat>)
    requires Ascending(a) && Ascending(b)
    ensures Ascending(out)
    ensures forall x: nat :: x in out <==> x in a && x in b
  {
    out := [];
    var i, j := 0, 0;
    while i < |a| && j < |b|
      invariant 0 <= i <= |a| && 0 <= j <= |b|
      invariant Ascending(out)
      invariant forall x: nat :: x in out ==> x in a && x in b
      invariant forall x: nat :: x in out && i < |a| ==> x < a[i]
      invariant forall x: nat :: x in out && j < |b| ==> x < b[j]
      invariant forall x: nat :: x in a && x in b ==> x in out || (x in a[i..] && x in b[j..])
      decreases |a| - i + |b| - j
    {
      Rest(a, i);
      Rest(b, j);
      if a[i] < b[j] {
        i := i + 1;
      } else if a[i] > b[j] {
        j := j + 1;
      } else {
        Extend(out, a[i]);
        out := out + [a[i]];
        i := i + 1;
        j := j + 1;
      }
    }
  }

  /** With one list used up, what is left of the other closes the union. */
  lemma AppendRests(out: seq<nat>, a: seq<nat>, i: nat, b: seq<nat>, j: nat)
    requires Ascending(a) && Ascending(b) && Ascending(out)
    requires i <= |a| && j <= |b| && (i == |a| || j == |b|)
    requires forall x: nat :: x in out && i < |a| ==> x < a[i]
    requires forall x: nat :: x in out && j < |b| ==> x < b[j]
    ensures Ascending(out + a[i..] + b[j..])
    ensures forall x: nat :: x in out + a[i..] + b[j..] <==> x in out || x in a[i..] || x in b[j..]
  {
    Rest(a, i);
    Rest(b, j);
    var tail := if i < |a| then a[i..] else b[j..];
    Append(out, tail);
    assert out + a[i..] + b[j..] == out + tail;
  }

  method UnionIds(a: seq<nat>, b: seq<nat>) returns (out: seq<nat>)
    requires Ascending(a) && Ascending(b)
    ensures Ascending(out)
    ensures forall x: nat :: x in out <==> x in a || x in b
  {
    out := [];
    var i, j := 0, 0;
    while i < |a| && j < |b|
      invariant 0 <= i <= |a| && 0 <= j <= |b|
      invariant Ascending(out)
      invariant forall x: nat :: x in out ==> x in a || x in b
      invariant forall x: nat :: x in out && i < |a| ==> x < a[i]
      invariant forall x: nat :: x in out && j < |b| ==> x < b[j]
      invariant forall x: nat :: x in a || x in b ==> x in out || x in a[i..] || x in b[j..]
      decreases |a| - i + |b| - j
    {
      Rest(a, i);
      Rest(b, j);
      if a[i] < b[j] {
        Extend(out, a[i]);
        out := out + [a[i]];
        i := i + 1;
      } else if a[i] > b[j] {
        Extend(out, b[j]);
        out := out + [b[j]];
        j := j + 1;
      } else {
        Extend(out, a[i]);
        out := out + [a[i]];
        i := i + 1;
        j := j + 1;
      }
    }
    AppendRests(out, a, i, b, j);
    out := out + a[i..];
    out := out + b[j..];
  }

  /** The ids below `total`, in order. */
  method AllIds(total: nat) returns (out: seq<nat>)
    ensures Ascending(out)
    ensures forall x: nat :: x in out <==> x < total
  {
    out := [];
    for i := 0 to total
      invariant Ascending(out)
      invariant forall x: nat :: x in out <==> x < i
    {
      Extend(out, i);
      out := out + [i];
    }
  }

  method ComplementIds(matched: seq<nat>, total: nat) returns (out: seq<nat>)
    requires Ascending(matched)
    ensures Ascending(out)
    ensures forall x: nat :: x in out <==> x < total && x !in matched
  {
    if matched == [] {
      out := AllIds(total);
      return;
    }
    out := [];
    var mi := 0;
    for i := 0 to total
      invariant 0 <= mi <= |matched|
      invariant forall k :: 0 <= k < mi ==> matched[k] < i
      invariant mi < |matched| ==> i <= matched[mi]
      invariant Ascending(out)
      invariant forall x: nat :: x in out <==> x < i && x !in matched
    {
      if mi < |matched| && matched[mi] == i {
        mi := mi + 1;
      } else {
        assert i !in matched;
        Extend(out, i);
        out := out + [i];
      }
    }
  }
}
