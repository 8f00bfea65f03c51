/** Sequence helpers shared by the grid and the simulator: an Option for lookups
    that can miss, the list operations the engine uses (`filter`, membership
    counting) and the "no duplicates" predicate. */
module Seqs {

  datatype Option<+T> = None | Some(value: T)

  /** No element occurs twice. */
  predicate Distinct<T(==)>(s: seq<T>) {
    forall i, j | 0 <= i < j < |s| :: s[i] != s[j]
  }

  /** The elements of a sequence, as a set. */
  ghost function Elements<T>(s: seq<T>): set<T> {
    set x | x in s
  }

  /** `Array.prototype.filter`: the elements of `s` that `keep` accepts, in order. */
  function Filter<T(==,!new)>(s: seq<T>, keep: T -> bool): (r: seq<T>)
    ensures |r| <= |s|
    ensures forall e :: e in r <==> e in s && keep(e)
    ensures Distinct(s) ==> Distinct(r)
  {
    if s == [] then []
    else
      var rest := Filter(s[1..], keep);
      assert Distinct(s) ==> s[0] !in s[1..] by {
        if Distinct(s) {
          forall k | 0 <= k < |s| - 1 ensures s[1..][k] != s[0] {
            assert s[1..][k] == s[k + 1];
          }
        }
      }
      if keep(s[0]) then [s[0]] + rest else rest
  }

  /** Filtering a concatenation filters each part. */
  lemma {:induction false} FilterAppend<T(!new)>(s: seq<T>, t: seq<T>, keep: T -> bool)
    ensures Filter(s + t, keep) == Filter(s, keep) + Filter(t, keep)
  {
    if s == [] {
      assert s + t == t;
    } else {
      assert (s + t)[1..] == s[1..] + t;
      FilterAppend(s[1..], t, keep);
    }
  }

  /** 1 for true, 0 for false. */
  function Ind(b: bool): nat {
    if b then 1 else 0
  }

  /** `filter` keeps every element the callback accepts as often as it occurs,
      and drops every other one. */
  lemma {:induction false} FilterMultiset<T(!new)>(s: seq<T>, keep: T -> bool)
    ensures forall e :: multiset(Filter(s, keep))[e] == if keep(e) then multiset(s)[e] else 0
  {
    if s != [] {
      FilterMultiset(s[1..], keep);
      assert s == [s[0]] + s[1..];
    }
  }

  /** Filtering keeps the first element or not, then filters the rest. */
  lemma FilterLengthCons<T(!new)>(cs: seq<T>, k: nat, keep: T -> bool)
    requires k < |cs|
    ensures |Filter(cs[k..], keep)| == Ind(keep(cs[k])) + |Filter(cs[k + 1..], keep)|
  {
    assert cs[k..][1..] == cs[k + 1..];
  }

  /** The length of a filtered four-element list, one term per element. */
  lemma FilterLength4<T(!new)>(cs: seq<T>, keep: T -> bool)
    requires |cs| == 4
    ensures |Filter(cs, keep)| ==
      Ind(keep(cs[0])) + Ind(keep(cs[1])) + Ind(keep(cs[2])) + Ind(keep(cs[3]))
  {
    FilterLengthCons(cs, 0, keep);
    FilterLengthCons(cs, 1, keep);
    FilterLengthCons(cs, 2, keep);
    FilterLengthCons(cs, 3, keep);
    assert cs[0..] == cs;
    assert cs[4..] == [];
  }

  /** The length of a filtered eight-element list, one term per element. */
  lemma FilterLength8<T(!new)>(cs: seq<T>, keep: T -> bool)
    requires |cs| == 8
    ensures |Filter(cs, keep)| ==
      Ind(keep(cs[0])) + Ind(keep(cs[1])) + Ind(keep(cs[2])) + Ind(keep(cs[3])) +
      Ind(keep(cs[4])) + Ind(keep(cs[5])) + Ind(keep(cs[6])) + Ind(keep(cs[7]))
  {
    assert cs == cs[..4] + cs[4..];
    FilterAppend(cs[..4], cs[4..], keep);
    FilterLength4(cs[..4], keep);
    FilterLength4(cs[4..], keep);
  }

  /** How many elements of `s` (counted with repetition) occur in `t`. */
  function CountIn<T(==)>(s: seq<T>, t: seq<T>): (r: nat)
    ensures r <= |s|
  {
    if s == [] then 0 else (if s[0] in t then 1 else 0) + CountIn(s[1..], t)
  }

  /** The elements of a non-empty sequence are its head and the elements of its tail. */
  lemma ElementsCons<T>(s: seq<T>)
    requires s != []
    ensures Elements(s) == {s[0]} + Elements(s[1..])
  {
    forall x ensures x in Elements(s) <==> x in {s[0]} + Elements(s[1..]) {
      if x in s && x != s[0] {
        var k :| 0 <= k < |s| && s[k] == x;
        assert s[1..][k - 1] == x;
      }
    }
  }

  /** The tail of a duplicate-free sequence is duplicate-free and misses the head. */
  lemma DistinctTail<T>(s: seq<T>)
    requires s != [] && Distinct(s)
    ensures Distinct(s[1..]) && s[0] !in Elements(s[1..])
  {
    var rest := s[1..];
    forall i, j | 0 <= i < j < |rest| ensures rest[i] != rest[j] {
      assert rest[i] == s[i + 1] && rest[j] == s[j + 1];
    }
    forall k | 0 <= k < |rest| ensures rest[k] != s[0] {
      assert rest[k] == s[k + 1];
    }
  }

  /** For a duplicate-free `s`, the count is the size of the common elements. */
  lemma {:induction false} CountInAsSet<T>(s: seq<T>, t: seq<T>)
    requires Distinct(s)
    ensures CountIn(s, t) == |Elements(s) * Elements(t)|
  {
    if s == [] {
      assert Elements(s) == {};
    } else {
      var rest := s[1..];
      DistinctTail(s);
      CountInAsSet(rest, t);
      ElementsCons(s);
      var common := Elements(rest) * Elements(t);
      assert s[0] !in common;
      if s[0] in t {
        assert Elements(s) * Elements(t) == common + {s[0]};
      } else {
        assert Elements(s) * Elements(t) == common;
      }
    }
  }

  /** Between two duplicate-free sequences, counting membership is symmetric. */
  lemma CountInSymmetric<T>(s: seq<T>, t: seq<T>)
    requires Distinct(s) && Distinct(t)
    ensures CountIn(s, t) == CountIn(t, s)
  {
    CountInAsSet(s, t);
    CountInAsSet(t, s);
    assert Elements(s) * Elements(t) == Elements(t) * Elements(s);
  }
}
