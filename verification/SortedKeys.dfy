/** The sorted, duplicate-free union of the keys of two maps, whatever order the maps are visited in. */
module SortedKeys {
  import opened Text

  ghost predicate Sorted(s: seq<string>) {
    forall p, q | 0 <= p < q < |s| :: Less(s[p], s[q])
  }

  ghost predicate Distinct(s: seq<string>) {
    forall p, q | 0 <= p < q < |s| :: s[p] != s[q]
  }

  ghost predicate SameMembers(s: seq<string>, t: seq<string>) {
    (forall k | k in s :: k in t) && forall k | k in t :: k in s
  }

  /** One order of visiting a set: every member once. */
  ghost predicate Visits(order: seq<string>, keys: set<string>) {
    Distinct(order) && (forall k | k in order :: k in keys) && forall k | k in keys :: k in order
  }

  /** The first i places are final, and s[i] precedes everything in s[i + 1..j]. */
  ghost predicate Front(s: seq<string>, i: nat, j: nat) {
    forall p, q | 0 <= p < q < |s| && (p < i || (p == i && q < j)) :: Less(s[p], s[q])
  }

  function Swapped(s: seq<string>, i: nat, j: nat): seq<string>
    requires i < j < |s|
  {
    s[i := s[j]][j := s[i]]
  }

  lemma SwapKeepsMembers(s: seq<string>, i: nat, j: nat)
    requires i < j < |s| && Distinct(s)
    ensures Distinct(Swapped(s, i, j)) && SameMembers(Swapped(s, i, j), s)
  {
    var t := Swapped(s, i, j);
    forall k | k in s ensures k in t {
      var p :| 0 <= p < |s| && s[p] == k;
      assert t[if p == i then j else if p == j then i else p] == k;
    }
  }

  lemma SwapAdvances(s: seq<string>, i: nat, j: nat)
    requires i < j < |s| && Front(s, i, j) && Less(s[j], s[i])
    ensures Front(Swapped(s, i, j), i, j + 1)
  {
    var t := Swapped(s, i, j);
    forall p, q | 0 <= p < q < |t| && (p < i || (p == i && q < j + 1))
      ensures Less(t[p], t[q])
    {
      if p == i && q < j {
        LessTransitive(s[j], s[i], s[q]);
      }
    }
  }

  lemma NoSwapAdvances(s: seq<string>, i: nat, j: nat)
    requires i < j < |s| && Front(s, i, j) && Distinct(s) && !Less(s[j], s[i])
    ensures Front(s, i, j + 1)
  {
    LessTotal(s[i], s[j]);
  }

  /** The exchange sort at the end of unionKeys, in place. */
  method ExchangeSort(out: array<string>)
    requires Distinct(out[..])
    modifies out
    ensures Sorted(out[..]) && SameMembers(out[..], old(out[..]))
  {
    var i := 0;
    while i < out.Length
      invariant 0 <= i <= out.Length
      invariant Front(out[..], i, i + 1) && Distinct(out[..]) && SameMembers(out[..], old(out[..]))
    {
      var j := i + 1;
      while j < out.Length
        invariant i + 1 <= j <= out.Length
        invariant Front(out[..], i, j) && Distinct(out[..]) && SameMembers(out[..], old(out[..]))
      {
        ghost var s := out[..];
        if Less(out[j], out[i]) {
          SwapKeepsMembers(s, i, j);
          SwapAdvances(s, i, j);
          out[i], out[j] := out[j], out[i];
          assert out[..] == Swapped(s, i, j);
        } else {
          NoSwapAdvances(s, i, j);
        }
        j := j + 1;
      }
      i := i + 1;
    }
  }

  /** unionKeys: `orderA` and `orderB` are the orders in which the two maps happen to be visited. */
  method UnionKeys(ghost a: set<string>, ghost b: set<string>, orderA: seq<string>, orderB: seq<string>)
    returns (keys: seq<string>)
    requires Visits(orderA, a) && Visits(orderB, b)
    ensures keys == SortedOf(a + b)
  {
    var seen: set<string> := {};
    var out: seq<string> := [];
    for i := 0 to |orderA|
      invariant out == orderA[..i] && forall k :: k in seen <==> k in orderA[..i]
    {
      seen := seen + {orderA[i]};
      out := out + [orderA[i]];
    }
    assert out == orderA;
    for i := 0 to |orderB|
      invariant Distinct(out)
      invariant forall k :: k in out <==> k in orderA || k in orderB[..i]
    {
      if orderB[i] !in seen {
        assert orderB[i] !in orderB[..i];
        out := out + [orderB[i]];
      }
    }
    var sorted := new string[|out|](i requires 0 <= i < |out| => out[i]);
    assert sorted[..] == out;
    ExchangeSort(sorted);
    keys := sorted[..];
    SortedIsUnique(keys, SortedOf(a + b));
  }

  /** A least member, by Go's order. */
  lemma {:induction false} LeastExists(s: set<string>) returns (m: string)
    requires s != {}
    ensures m in s && forall k | k in s && k != m :: Less(m, k)
    decreases |s|
  {
    m :| m in s;
    var rest := s - {m};
    if rest != {} {
      var n := LeastExists(rest);
      LessTotal(m, n);
      if Less(n, m) {
        m := n;
      } else {
        forall k | k in s && k != m ensures Less(m, k) {
          if k != n { LessTransitive(m, n, k); }
        }
      }
    }
  }

  ghost predicate IsLeast(m: string, s: set<string>) {
    m in s && forall k | k in s && k != m :: Less(m, k)
  }

  /** The members of a set in Go's string order. */
  ghost function SortedOf(s: set<string>): (r: seq<string>)
    ensures Sorted(r) && (forall k | k in r :: k in s) && forall k | k in s :: k in r
    decreases |s|
  {
    if s == {} then []
    else
      assert exists m :: IsLeast(m, s) by {
        var m := LeastExists(s);
        assert IsLeast(m, s);
      }
      var m :| IsLeast(m, s);
      var rest := SortedOf(s - {m});
      assert forall q | 0 <= q < |rest| :: rest[q] in s - {m};
      [m] + rest
  }

  /** Two sorted lists with the same members are the same list. */
  lemma {:induction false} SortedIsUnique(s: seq<string>, t: seq<string>)
    requires Sorted(s) && Sorted(t) && SameMembers(s, t)
    ensures s == t
  {
    EmptyTogether(s, t);
    if s != [] {
      HeadsAgree(s, t);
      TailsAgree(s, t);
      SortedIsUnique(s[1..], t[1..]);
      assert s == [s[0]] + s[1..] && t == [t[0]] + t[1..];
    }
  }

  lemma EmptyTogether(s: seq<string>, t: seq<string>)
    requires SameMembers(s, t)
    ensures s == [] <==> t == []
  {
    if s != [] { assert s[0] in t; }
    if t != [] { assert t[0] in s; }
  }

  lemma HeadsAgree(s: seq<string>, t: seq<string>)
    requires Sorted(s) && Sorted(t) && SameMembers(s, t) && s != [] && t != []
    ensures s[0] == t[0]
  {
    assert s[0] in t && t[0] in s;
    LessTotal(s[0], t[0]);
  }

  lemma TailsAgree(s: seq<string>, t: seq<string>)
    requires Sorted(s) && Sorted(t) && SameMembers(s, t) && s != [] && t != [] && s[0] == t[0]
    ensures Sorted(s[1..]) && Sorted(t[1..]) && SameMembers(s[1..], t[1..])
  {
    TailMembers(s);
    TailMembers(t);
  }

  lemma TailMembers(s: seq<string>)
    requires Sorted(s) && s != []
    ensures forall k :: k in s[1..] <==> k in s && k != s[0]
  {
    LessTotal(s[0], s[0]);
    forall k | k in s && k != s[0] ensures k in s[1..] {
      var p :| 0 <= p < |s| && s[p] == k;
      assert s[1..][p - 1] == k;
    }
    assert forall q | 1 <= q < |s| :: Less(s[0], s[q]);
  }
}
