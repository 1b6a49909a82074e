/** Sorted, duplicate-free integer lists: what `sorted(list(set(xs)))` produces. */
module SortedSets {

  /** Ascending with no repeated element. */
  predicate StrictlyIncreasing(s: seq<int>) {
    forall i, j :: 0 <= i < j < |s| ==> s[i] < s[j]
  }

  /** Inserts `x` into a sorted, duplicate-free list, keeping it so. */
  function Insert(x: int, s: seq<int>): (r: seq<int>)
    requires StrictlyIncreasing(s)
    ensures StrictlyIncreasing(r)
    ensures forall v :: v in r <==> v == x || v in s
    ensures |r| <= |s| + 1
  {
    if s == [] then [x]
    else if x < s[0] then TailMembers(s); PrependSmaller(x, s); [x] + s
    else if x == s[0] then s
    else
      var rest := Insert(x, s[1..]);
      TailMembers(s);
      PrependSmaller(s[0], rest);
      [s[0]] + rest
  }

  /** Putting a value below every element in front keeps a list sorted and duplicate-free. */
  lemma PrependSmaller(x: int, s: seq<int>)
    requires StrictlyIncreasing(s)
    requires forall v :: v in s ==> x < v
    ensures StrictlyIncreasing([x] + s)
  {
    assert forall i :: 0 <= i < |s| ==> s[i] in s;
  }

  /** The sorted list of the distinct values of `xs`. */
  function Normalize(xs: seq<int>): (r: seq<int>)
    ensures StrictlyIncreasing(r)
    ensures forall v :: v in r <==> v in xs
    ensures |r| <= |xs|
  {
    if xs == [] then [] else Insert(xs[0], Normalize(xs[1..]))
  }

  /** Dropping the head of a strictly increasing list removes exactly its smallest value. */
  lemma TailMembers(s: seq<int>)
    requires StrictlyIncreasing(s) && s != []
    ensures forall v :: v in s[1..] <==> v in s && v != s[0]
    ensures forall v :: v in s ==> s[0] <= v
  {
    forall v | v in s ensures s[0] <= v {
      var k :| 0 <= k < |s| && s[k] == v;
    }
  }

  /** A non-empty list has its head as a member. */
  lemma HeadIsMember(s: seq<int>)
    ensures s != [] ==> s[0] in s
  {
  }

  /** A sorted duplicate-free list is determined by its set of values: any two
      such lists with the same members are equal. */
  lemma {:induction false} SameMembersSameList(a: seq<int>, b: seq<int>)
    requires StrictlyIncreasing(a) && StrictlyIncreasing(b)
    requires forall v :: v in a <==> v in b
    ensures a == b
  {
    HeadIsMember(a);
    HeadIsMember(b);
    if a != [] && b != [] {
      TailMembers(a);
      TailMembers(b);
      assert a[0] in b && b[0] in a;
      assert a[0] == b[0];
      SameMembersSameList(a[1..], b[1..]);
      assert a == [a[0]] + a[1..];
      assert b == [b[0]] + b[1..];
    }
  }

  /** Appending a value above every element keeps a list sorted and duplicate-free. */
  lemma AppendLarger(s: seq<int>, x: int)
    requires StrictlyIncreasing(s)
    requires forall v :: v in s ==> v < x
    ensures StrictlyIncreasing(s + [x])
  {
    assert forall i :: 0 <= i < |s| ==> s[i] in s;
  }

  /** Normalising a list that is already sorted and duplicate-free leaves it unchanged. */
  lemma NormalizeSorted(s: seq<int>)
    requires StrictlyIncreasing(s)
    ensures Normalize(s) == s
  {
    SameMembersSameList(Normalize(s), s);
  }

  /** Each element of a strictly increasing list is at least its position above the first. */
  lemma {:induction false} GrowsByPosition(s: seq<int>, k: nat)
    requires StrictlyIncreasing(s) && k < |s|
    ensures s[k] >= s[0] + k
  {
    if k > 0 {
      GrowsByPosition(s, k - 1);
    }
  }

  /** A sorted duplicate-free list whose values lie in 1..n has at most n entries. */
  lemma BoundedLength(s: seq<int>, n: int)
    requires 0 <= n
    requires StrictlyIncreasing(s)
    requires forall v :: v in s ==> 1 <= v <= n
    ensures |s| <= n
  {
    if s != [] {
      GrowsByPosition(s, |s| - 1);
      assert s[0] in s && s[|s| - 1] in s;
    }
  }
}
