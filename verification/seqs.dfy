/** Generic sequence facts: duplicate-freedom, first-occurrence deduplication, filtering out a set. */
module Seqs {

  predicate NoDuplicates<T(==)>(s: seq<T>) {
    forall i, j :: 0 <= i < j < |s| ==> s[i] != s[j]
  }

  lemma AppendAssoc<T>(a: seq<T>, b: seq<T>, c: seq<T>)
    ensures (a + b) + c == a + (b + c)
  {
  }

  /**
   Reference deduplication: an element is kept exactly when it does not
   occur earlier in the sequence, so first occurrences win and their order is kept.
   */
  function Dedup<T(==)>(s: seq<T>): (r: seq<T>)
    ensures |r| <= |s|
  {
    if s == [] then []
    else
      var init := s[..|s| - 1];
      Dedup(init) + (if s[|s| - 1] in init then [] else [s[|s| - 1]])
  }

  /** Extending the input by one element extends the deduplication by that element iff it is new. */
  lemma DedupSnoc<T>(s: seq<T>, x: T)
    ensures Dedup(s + [x]) == Dedup(s) + (if x in s then [] else [x])
  {
    assert (s + [x])[..|s|] == s;
  }

  lemma {:induction false} DedupMembers<T>(s: seq<T>)
    ensures forall x :: x in Dedup(s) <==> x in s
  {
    if s != [] {
      var init := s[..|s| - 1];
      DedupMembers(init);
      assert s == init + [s[|s| - 1]];
    }
  }

  /** One more element is kept exactly when the deduplication so far lacks it. */
  lemma DedupAppendOne<T>(s: seq<T>, x: T)
    ensures Dedup(s + [x]) == if x in Dedup(s) then Dedup(s) else Dedup(s) + [x]
  {
    DedupSnoc(s, x);
    DedupMembers(s);
  }

  lemma {:induction false} DedupNoDuplicates<T>(s: seq<T>)
    ensures NoDuplicates(Dedup(s))
  {
    if s != [] {
      var init := s[..|s| - 1];
      DedupNoDuplicates(init);
      DedupMembers(init);
    }
  }

  /** The elements of `s` that are not in `present`, in order. */
  function Absent<T(==)>(s: seq<T>, present: set<T>): (r: seq<T>)
    ensures |r| <= |s|
  {
    if s == [] then [] else (if s[0] in present then [] else [s[0]]) + Absent(s[1..], present)
  }

  lemma {:induction false} AbsentMembers<T>(s: seq<T>, present: set<T>)
    ensures forall x :: x in Absent(s, present) <==> x in s && x !in present
  {
    if s != [] {
      AbsentMembers(s[1..], present);
      assert s == [s[0]] + s[1..];
    }
  }

  lemma {:induction false} AbsentAppend<T>(a: seq<T>, b: seq<T>, present: set<T>)
    ensures Absent(a + b, present) == Absent(a, present) + Absent(b, present)
  {
    if a == [] {
      assert a + b == b;
    } else {
      var head := if a[0] in present then [] else [a[0]];
      assert (a + b)[0] == a[0];
      assert (a + b)[1..] == a[1..] + b;
      AbsentAppend(a[1..], b, present);
      calc {
        Absent(a + b, present);
        head + Absent(a[1..] + b, present);
        head + (Absent(a[1..], present) + Absent(b, present));
        { AppendAssoc(head, Absent(a[1..], present), Absent(b, present)); }
        (head + Absent(a[1..], present)) + Absent(b, present);
        Absent(a, present) + Absent(b, present);
      }
    }
  }

  lemma {:induction false} AbsentNoDuplicates<T>(s: seq<T>, present: set<T>)
    requires NoDuplicates(s)
    ensures NoDuplicates(Absent(s, present))
  {
    if s != [] {
      AbsentNoDuplicates(s[1..], present);
      AbsentMembers(s[1..], present);
    }
  }
}
