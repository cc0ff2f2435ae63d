/** Small shared vocabulary: optional values, results, and the sequence
    helpers that stand in for Python lists and the insertion-ordered
    deduplicating containers (VirtualSet). */
module Common {

  datatype Option<T> = None | Some(value: T)

  datatype Result<T, E> = Ok(value: T) | Err(error: E)

  datatype Outcome<E> = Pass | Fail(error: E)

  /** A loop over `results` that stops at the first error: that error, or
      Pass when every step succeeds. */
  function FirstError<T, E>(results: seq<Result<T, E>>): (r: Outcome<E>)
    ensures r.Pass? <==> forall k | 0 <= k < |results| :: results[k].Ok?
    ensures r.Fail? ==> exists k | 0 <= k < |results| ::
              && (forall j | 0 <= j < k :: results[j].Ok?)
              && results[k] == Err(r.error)
  {
    if results == [] then Pass
    else if results[0].Err? then Fail(results[0].error)
    else
      FirstError(results[1..])
  }

  /** The loop stops at the first step that fails. */
  lemma {:induction false} FirstErrorAt<T, E>(results: seq<Result<T, E>>, k: nat)
    requires k < |results| && results[k].Err?
    requires forall j | 0 <= j < k :: results[j].Ok?
    ensures FirstError(results) == Fail(results[k].error)
  {
    if k > 0 {
      FirstErrorAt(results[1..], k - 1);
    }
  }

  /** No element occurs twice. */
  predicate NoDup<T(==)>(s: seq<T>) {
    forall i, j | 0 <= i < j < |s| :: s[i] != s[j]
  }

  lemma NoDupSnoc<T>(s: seq<T>, x: T)
    requires NoDup(s) && x !in s
    ensures NoDup(s + [x])
  {
  }

  lemma NoDupConcat<T>(s: seq<T>, t: seq<T>)
    requires NoDup(s) && NoDup(t) && forall x | x in s :: x !in t
    ensures NoDup(s + t)
  {
    forall i, j | 0 <= i < j < |s + t|
      ensures (s + t)[i] != (s + t)[j]
    {
      if i < |s| && |s| <= j {
        assert s[i] in s && t[j - |s|] in t;
      }
    }
  }

  /** Every element of `s` is a valid handle below `n`. */
  predicate AllBelow(s: seq<nat>, n: nat) {
    forall k | 0 <= k < |s| :: s[k] < n
  }

  lemma AllBelowSubset(a: seq<nat>, b: seq<nat>, n: nat)
    requires AllBelow(b, n) && forall x | x in a :: x in b
    ensures AllBelow(a, n)
  {
    forall k | 0 <= k < |a|
      ensures a[k] < n
    {
      assert a[k] in b;
      var j :| 0 <= j < |b| && b[j] == a[k];
    }
  }

  /** The insertion-ordered set built from `s` (a VirtualSet filled from an
      iterable): the first occurrence of each element is kept. */
  function Dedup<T(==)>(s: seq<T>): (r: seq<T>)
    ensures NoDup(r)
    ensures forall x | x in r :: x in s
    ensures forall x | x in s :: x in r
    ensures |r| <= |s|
  {
    if s == [] then []
    else
      var d := Dedup(s[..|s| - 1]);
      if s[|s| - 1] in d then d else d + [s[|s| - 1]]
  }

  lemma DedupSnoc<T>(s: seq<T>, x: T)
    ensures Dedup(s + [x]) == if x in Dedup(s) then Dedup(s) else Dedup(s) + [x]
  {
    assert (s + [x])[..|s + [x]| - 1] == s;
  }

  /** One more element of `ts` read into the insertion-ordered set. */
  lemma DedupExtend<T>(before: seq<T>, ts: seq<T>, j: nat)
    requires j < |ts|
    ensures Dedup(before + ts[..j + 1])
         == if ts[j] in Dedup(before + ts[..j]) then Dedup(before + ts[..j])
            else Dedup(before + ts[..j]) + [ts[j]]
  {
    assert ts[..j + 1] == ts[..j] + [ts[j]];
    assert before + ts[..j + 1] == (before + ts[..j]) + [ts[j]];
    DedupSnoc(before + ts[..j], ts[j]);
  }

  /** `for x in items: if x not in list: list.append(x)`, where `list` is
      the insertion-ordered set read from `before`. */
  method AppendNew<T(==)>(list: seq<T>, ghost before: seq<T>, items: seq<T>) returns (r: seq<T>)
    requires list == Dedup(before)
    ensures r == Dedup(before + items)
  {
    r := list;
    assert before + items[..0] == before;
    for j := 0 to |items|
      invariant r == Dedup(before + items[..j])
    {
      DedupExtend(before, items, j);
      if items[j] !in r {
        r := r + [items[j]];
      }
    }
    assert items[..|items|] == items;
  }

  /** The same loop on a list without repetitions: afterwards it holds
      each element of `list` or `items`, once. */
  method AddUnique<T(==)>(list: seq<T>, items: seq<T>) returns (r: seq<T>)
    requires NoDup(list)
    ensures NoDup(r)
    ensures forall x :: x in r <==> x in list || x in items
  {
    DedupOfDistinct(list);
    r := AppendNew(list, list, items);
  }

  lemma {:induction false} DedupOfDistinct<T>(s: seq<T>)
    requires NoDup(s)
    ensures Dedup(s) == s
  {
    if s != [] {
      var init := s[..|s| - 1];
      assert NoDup(init);
      DedupOfDistinct(init);
      assert s[|s| - 1] !in init;
      assert init + [s[|s| - 1]] == s;
    }
  }

  lemma PrefixSnoc<T>(s: seq<T>, i: nat)
    requires i < |s|
    ensures s[..i + 1] == s[..i] + [s[i]]
  {
  }

  /** Python's `xs[i]`: negative indices count from the end. */
  function PyIndex(len: nat, i: int): (r: Option<nat>)
    ensures r.Some? <==> -(len as int) <= i < len
    ensures r.Some? ==> r.value < len && (r.value as int - i) % len == 0
  {
    if 0 <= i < len then Some(i)
    else if -(len as int) <= i < 0 then Some(i + len)
    else None
  }

  /** Concatenation of a sequence of sequences. */
  function Flatten<T>(ss: seq<seq<T>>): seq<T> {
    if ss == [] then [] else Flatten(ss[..|ss| - 1]) + ss[|ss| - 1]
  }

  /** The handles `lo, lo + 1, ..., hi - 1`. */
  function Range(lo: nat, hi: nat): (r: seq<nat>)
    requires lo <= hi
    ensures |r| == hi - lo
    ensures forall k | 0 <= k < |r| :: r[k] == lo + k
  {
    seq(hi - lo, k requires 0 <= k < hi - lo => lo + k)
  }
}
