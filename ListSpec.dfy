/** What each operation of the doubly linked list `DList` does to the sequence
 *  of items it holds, stated on plain sequences.  The linked implementation in
 *  LinkedList.dfy is specified against these functions; the lemmas here
 *  compare them with the behaviour of Python's built-in `list`, which the
 *  class imitates. */
module ListSpec {

  /** The exceptions the list raises. */
  datatype Error = IndexError | ValueError

  datatype Option<T> = None | Some(value: T)

  datatype Result<T> = Ok(value: T) | Err(error: Error)

  /** The outcome of an operation that returns nothing but may raise. */
  datatype Status = Done | Raised(error: Error)

  function StatusOf<U>(r: Result<U>): Status
  {
    if r.Ok? then Done else Raised(r.error)
  }

  /** The contents after an operation whose outcome on contents `s` is `r`:
   *  an operation that raises leaves the contents as they were. */
  function After<T>(r: Result<seq<T>>, s: seq<T>): seq<T>
  {
    if r.Ok? then r.value else s
  }

  function Abs(i: int): nat
  {
    if i < 0 then -i else i
  }

  // ---------------------------------------------------------------------
  // Positions

  /** The positions `_find` accepts in a list of length `n`: 0 is the first
   *  item and n-1 the last; -1 is the last item and -n the first. */
  predicate InRange(n: int, p: int)
  {
    -n <= p < n
  }

  /** The non-negative position that an accepted position denotes. */
  function Normalize(n: int, p: int): (k: int)
    requires InRange(n, p)
    ensures 0 <= k < n
  {
    if p < 0 then n + p else p
  }

  // ---------------------------------------------------------------------
  // Iteration

  /** The items in reverse order, as `reverse_iter` yields them. */
  function Reverse<T>(s: seq<T>): (r: seq<T>)
    ensures |r| == |s|
  {
    if s == [] then [] else [s[|s| - 1]] + Reverse(s[..|s| - 1])
  }

  /** The k-th item of the reversal is the k-th item counted from the end. */
  lemma {:induction false} ReverseIndex<T>(s: seq<T>, k: int)
    requires 0 <= k < |s|
    ensures Reverse(s)[k] == s[|s| - 1 - k]
  {
    if k > 0 {
      ReverseIndex(s[..|s| - 1], k - 1);
    }
  }

  /** Reversing what `reverse_iter` yields gives back the forward order. */
  lemma ReverseInvolution<T>(s: seq<T>)
    ensures Reverse(Reverse(s)) == s
  {
    forall k | 0 <= k < |s|
      ensures Reverse(Reverse(s))[k] == s[k]
    {
      ReverseIndex(Reverse(s), k);
      ReverseIndex(s, |s| - 1 - k);
    }
  }

  // ---------------------------------------------------------------------
  // Indexed access

  /** `__getitem__`: the item at position `p`, or IndexError. */
  function ItemAt<T>(s: seq<T>, p: int): (r: Result<T>)
    ensures r.Ok? <==> -|s| <= p < |s|
    ensures r.Err? ==> r.error == IndexError
    ensures 0 <= p < |s| ==> r == Ok(s[p])
    ensures -|s| <= p < 0 ==> r == Ok(s[|s| + p])
  {
    if InRange(|s|, p) then Ok(s[Normalize(|s|, p)]) else Err(IndexError)
  }

  /** `__setitem__`: the contents with the item at position `p` replaced. */
  function WithItem<T>(s: seq<T>, p: int, v: T): (r: Result<seq<T>>)
    ensures r.Ok? <==> ItemAt(s, p).Ok?
    ensures r.Err? ==> r.error == IndexError
    ensures r.Ok? ==> |r.value| == |s| && ItemAt(r.value, p) == Ok(v)
    ensures r.Ok? ==> forall k :: 0 <= k < |s| && k != Normalize(|s|, p) ==> r.value[k] == s[k]
  {
    if InRange(|s|, p) then Ok(s[Normalize(|s|, p) := v]) else Err(IndexError)
  }

  // ---------------------------------------------------------------------
  // Insertion

  /** Where Python's `list.insert(i, x)` places `x` in a list of length `n`. */
  function ListInsertPosition(n: nat, i: int): (k: nat)
    ensures k <= n
  {
    if i < 0 then (if n + i < 0 then 0 else n + i)
    else if i > n then n
    else i
  }

  /** `insert(i, x)`: position 0 makes `x` the new head, a position at or past
   *  the end appends, and any other position is resolved through the node
   *  before it, so a negative position that has no node before it raises
   *  IndexError.  The caller must not insert at 0 into an empty list, where
   *  the code dereferences the missing head. */
  function Inserted<T>(s: seq<T>, i: int, x: T): (r: Result<seq<T>>)
    requires i == 0 ==> |s| > 0
    ensures r.Err? <==> i <= -|s|
    ensures r.Err? ==> r.error == IndexError
    ensures r.Ok? ==>
      var k := ListInsertPosition(|s|, i);
      r.value == s[..k] + [x] + s[k..]
  {
    if i == 0 then Ok([x] + s)
    else if i >= |s| then Ok(s + [x])
    else if InRange(|s|, i - 1) then
      var k := Normalize(|s|, i - 1) + 1;
      Ok(s[..k] + [x] + s[k..])
    else Err(IndexError)
  }

  // ---------------------------------------------------------------------
  // Deletion

  /** The positions at which `_delete` dereferences a node that is not there:
   *  on an empty list at -1 and 0, and on a list of two or more items at -1
   *  (the splice clears the next link of the last-but-one node and then
   *  follows it) and at `n` (the node before it is the tail). */
  predicate DeleteCrashes(n: int, p: int): (b: bool)
    ensures b ==> n != 1 && (p == -1 || p == n)
  {
    (n == 0 && (p == -1 || p == 0)) || (n >= 2 && (p == -1 || p == n))
  }

  /** `_delete(p)` on the raw position `p`, with its four cases: sole node,
   *  tail, head, and a splice after the node that `p - 1` resolves to. */
  function Deleted<T>(s: seq<T>, p: int): (r: Result<seq<T>>)
    requires !DeleteCrashes(|s|, p)
    ensures r.Ok? <==> |s| == 1 || (InRange(|s|, p) && p != -|s|)
    ensures r.Err? ==> r.error == IndexError
    ensures |s| == 1 ==> r == Ok([])
    ensures r.Ok? && InRange(|s|, p) ==>
      var k := Normalize(|s|, p);
      r.value == s[..k] + s[k + 1..]
  {
    if |s| == 1 then Ok([])
    else if p == |s| - 1 then
      assert s[p + 1..] == [];
      Ok(s[..p])
    else if p == 0 then
      assert s[..0] == [];
      Ok(s[1..])
    else if InRange(|s|, p - 1) then
      var k := Normalize(|s|, p - 1) + 1;
      Ok(s[..k] + s[k + 1..])
    else Err(IndexError)
  }

  /** Deleting the position where `insert` put `x` restores the list. */
  lemma InsertThenDelete<T>(s: seq<T>, i: int, x: T)
    requires i == 0 ==> |s| > 0
    requires Inserted(s, i, x).Ok?
    ensures var t := Inserted(s, i, x).value;
      var k := ListInsertPosition(|s|, i);
      ItemAt(t, k) == Ok(x) && Deleted(t, k) == Ok(s)
  {
    var t := Inserted(s, i, x).value;
    var k := ListInsertPosition(|s|, i);
    assert t[..k] == s[..k] && t[k + 1..] == s[k..];
    assert s == s[..k] + s[k..];
  }

  /** The position `pop(i)` works on: the last one when `i` is omitted. */
  function PopPosition(n: int, i: Option<int>): (p: int)
    ensures i.Some? ==> p == i.value
    ensures i.None? ==> (InRange(n, p) <==> n > 0)
  {
    if i.None? then n - 1 else i.value
  }

  /** `pop(i)`: the new contents and the item removed.  The guard of the code
   *  rejects only positions past `n`, `_find` rejects the rest of the
   *  out-of-range ones, and `_delete` then works on the raw position.  The
   *  caller must not pop at -1 from a list of two or more items, where
   *  `_delete` crashes. */
  function Popped<T>(s: seq<T>, i: Option<int>): (r: Result<(seq<T>, T)>)
    requires i == Some(-1) ==> |s| < 2
    ensures r.Err? ==> r.error == IndexError
    ensures r.Ok? ==> InRange(|s|, PopPosition(|s|, i))
    ensures r.Ok? ==> |r.value.0| + 1 == |s|
    ensures r.Ok? ==> r.value.1 == s[Normalize(|s|, PopPosition(|s|, i))]
  {
    var p := PopPosition(|s|, i);
    if i.Some? && Abs(p) - 1 >= |s| && |s| <= p then Err(IndexError)
    else if !InRange(|s|, p) then Err(IndexError)
    else match Deleted(s, p)
      case Ok(t) => Ok((t, s[Normalize(|s|, p)]))
      case Err(e) => Err(e)
  }

  /** `pop()` removes and returns the last item, and raises IndexError on an
   *  empty list. */
  lemma PopLast<T>(s: seq<T>)
    ensures |s| == 0 ==> Popped(s, None) == Err(IndexError)
    ensures |s| > 0 ==> Popped(s, None) == Ok((s[..|s| - 1], s[|s| - 1]))
  {
  }

  /** `pop(i)` agrees with Python's `list.pop(i)` on every position except
   *  `-n` of a list of two or more items (and -1, which the caller may not
   *  pass there): the item at `i` is returned and removed, and any other
   *  position raises IndexError. */
  lemma PopMatchesListPop<T>(s: seq<T>, i: int)
    requires i == -1 ==> |s| < 2
    ensures !InRange(|s|, i) ==> Popped(s, Some(i)) == Err(IndexError)
    ensures InRange(|s|, i) && (|s| == 1 || i != -|s|) ==>
      var k := Normalize(|s|, i);
      Popped(s, Some(i)) == Ok((s[..k] + s[k + 1..], s[k]))
    ensures |s| >= 2 && i == -|s| ==> Popped(s, Some(i)) == Err(IndexError)
  {
  }

  // ---------------------------------------------------------------------
  // Searching

  /** The least position `j >= from` holding `x`, if any. */
  function FirstFrom<T(==)>(s: seq<T>, x: T, from: nat): (r: Option<nat>)
    ensures r.Some? ==> from <= r.value < |s| && s[r.value] == x
    decreases |s| - from
  {
    if from >= |s| then None
    else if s[from] == x then Some(from)
    else FirstFrom(s, x, from + 1)
  }

  /** FirstFrom finds the least occurrence, and finds nothing exactly when
   *  `x` does not occur from `from` on. */
  lemma {:induction false} FirstFromIsLeast<T>(s: seq<T>, x: T, from: nat)
    ensures FirstFrom(s, x, from).None? <==> forall j :: from <= j < |s| ==> s[j] != x
    ensures FirstFrom(s, x, from).Some? ==> forall j :: from <= j < FirstFrom(s, x, from).value ==> s[j] != x
    decreases |s| - from
  {
    if from < |s| && s[from] != x {
      FirstFromIsLeast(s, x, from + 1);
    }
  }

  /** Skipping positions that do not hold `x` does not change the search. */
  lemma {:induction false} FirstFromSkip<T>(s: seq<T>, x: T, from: nat, k: nat)
    requires from <= k <= |s|
    requires forall j :: from <= j < k ==> s[j] != x
    ensures FirstFrom(s, x, from) == FirstFrom(s, x, k)
    decreases k - from
  {
    if from < k {
      FirstFromSkip(s, x, from + 1, k);
    }
  }

  /** `index(x, start)` exactly as the loop of DList.py computes it: the
   *  cursor starts at the node `start` denotes, but the counter it reports
   *  starts at `start` itself, and "not found" is recognised by the counter
   *  reaching the length. */
  function IndexAsWritten<T(==)>(s: seq<T>, x: T, start: int): (r: Result<Option<int>>)
    ensures r.Err? <==> !InRange(|s|, start)
    ensures r.Err? ==> r.error == IndexError
    ensures r.Ok? && r.value.Some? ==> start <= r.value.value < |s|
  {
    if !InRange(|s|, start) then Err(IndexError)
    else
      var from := Normalize(|s|, start);
      var stop := match FirstFrom(s, x, from) case Some(j) => j case None => |s|;
      var counter := start + (stop - from);
      if counter == |s| then Ok(None) else Ok(Some(counter))
  }

  /** `index(x, start)` as evidently intended: the first position at or after
   *  the one `start` denotes that holds `x`, None when there is none, and
   *  IndexError when `start` is out of range. */
  function IndexOf<T(==)>(s: seq<T>, x: T, start: int): (r: Result<Option<int>>)
    ensures r.Err? <==> !InRange(|s|, start)
    ensures r.Err? ==> r.error == IndexError
  {
    if !InRange(|s|, start) then Err(IndexError)
    else match FirstFrom(s, x, Normalize(|s|, start))
      case Some(j) => Ok(Some(j))
      case None => Ok(None)
  }

  /** IndexOf returns the least matching position at or after `start`, and
   *  None exactly when no position there holds `x`. */
  lemma IndexOfFindsFirst<T>(s: seq<T>, x: T, start: int)
    requires InRange(|s|, start)
    ensures var from := Normalize(|s|, start);
      IndexOf(s, x, start) == Ok(None) <==> forall j :: from <= j < |s| ==> s[j] != x
    ensures var from := Normalize(|s|, start);
      forall j :: IndexOf(s, x, start) == Ok(Some(j)) <==>
        from <= j < |s| && s[j] == x && forall i :: from <= i < j ==> s[i] != x
  {
    var from := Normalize(|s|, start);
    FirstFromIsLeast(s, x, from);
    forall j | from <= j < |s| && s[j] == x && forall i :: from <= i < j ==> s[i] != x
      ensures IndexOf(s, x, start) == Ok(Some(j))
    {
      FirstFromSkip(s, x, from, j);
    }
  }

  /** For a start that is not negative the code computes what was intended. */
  lemma IndexAgreesFromNonNegativeStart<T>(s: seq<T>, x: T, start: int)
    requires 0 <= start
    ensures IndexAsWritten(s, x, start) == IndexOf(s, x, start)
  {
  }

  /** For a negative start the counter is off by the length: when `x` is not
   *  in the searched part the code reports position 0 instead of None. */
  lemma IndexNegativeStartReportsZero<T>(s: seq<T>, x: T, start: int)
    requires -|s| <= start < 0
    requires forall j :: |s| + start <= j < |s| ==> s[j] != x
    ensures IndexAsWritten(s, x, start) == Ok(Some(0))
    ensures IndexOf(s, x, start) == Ok(None)
  {
  }

  /** For a negative start the counter is off by the length when `x` is
   *  found too: the code reports `j - |s|` for a match at position `j`. */
  lemma IndexNegativeStartOffset<T>(s: seq<T>, x: T, start: int, j: nat)
    requires -|s| <= start < 0
    requires FirstFrom(s, x, |s| + start) == Some(j)
    ensures IndexAsWritten(s, x, start) == Ok(Some(j - |s|))
    ensures IndexOf(s, x, start) == Ok(Some(j))
  {
  }

  /** A concrete case: searching [1, 2] for 5 from position -1. */
  lemma IndexNegativeStartExample()
    ensures IndexAsWritten([1, 2], 5, -1) == Ok(Some(0))
    ensures IndexOf([1, 2], 5, -1) == Ok(None)
  {
  }

  // ---------------------------------------------------------------------
  // Removal by value

  /** `remove(x)`: delete the first occurrence of `x`.  The search is
   *  `index(x)` from position 0, so an empty list raises the IndexError of
   *  that search before ValueError can be raised. */
  function Removed<T(==)>(s: seq<T>, x: T): (r: Result<seq<T>>)
    ensures r.Err? ==> (r.error == IndexError <==> |s| == 0)
    ensures r.Ok? ==> |r.value| + 1 == |s|
  {
    if |s| == 0 then Err(IndexError)
    else match FirstFrom(s, x, 0)
      case None => Err(ValueError)
      case Some(j) => Deleted(s, j)
  }

  /** `remove(x)` on a non-empty list deletes exactly the first occurrence of
   *  `x`, and raises ValueError when there is none. */
  lemma RemoveFirstOccurrence<T>(s: seq<T>, x: T)
    ensures |s| == 0 ==> Removed(s, x) == Err(IndexError)
    ensures |s| > 0 && x !in s ==> Removed(s, x) == Err(ValueError)
    ensures x in s ==>
      (exists j :: 0 <= j < |s| && s[j] == x && x !in s[..j] &&
         Removed(s, x) == Ok(s[..j] + s[j + 1..]))
  {
    FirstFromIsLeast(s, x, 0);
    if x in s {
      var j := FirstFrom(s, x, 0).value;
      assert x !in s[..j];
    } else if |s| > 0 {
      assert forall j :: 0 <= j < |s| ==> s[j] != x;
    }
  }

  /** A successful `remove(x)` takes away one `x` and nothing else. */
  lemma RemoveTakesOneOccurrence<T>(s: seq<T>, x: T)
    requires x in s
    ensures Removed(s, x).Ok?
    ensures multiset(Removed(s, x).value) == multiset(s) - multiset{x}
  {
    FirstFromIsLeast(s, x, 0);
    var j := FirstFrom(s, x, 0).value;
    var rest := s[..j] + s[j + 1..];
    assert Removed(s, x) == Ok(rest);
    assert s == s[..j] + [x] + s[j + 1..];
    assert multiset(s) == multiset(rest) + multiset{x};
  }
}
