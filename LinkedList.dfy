/** The doubly linked list `DList` of DList.py: a chain of nodes linked both
 *  ways, with the number of items, the first node and the last node kept in
 *  the list object.  Each method is specified by what it does to the ghost
 *  sequence `Contents`, in the terms of module ListSpec. */
module LinkedList {
  import opened ListSpec

  /** One cell of the chain: an item and the links to its two neighbours. */
  class DListNode<T> {
    var item: T
    var prev: DListNode?<T>
    var next: DListNode?<T>

    constructor (x: T, prev: DListNode?<T>, next: DListNode?<T>)
      ensures item == x && this.prev == prev && this.next == next
    {
      item := x;
      this.prev := prev;
      this.next := next;
    }
  }

  /** `lt` is a strict order on the items of `s`: the capability `__min__`
   *  and `__max__` need of the `<` and `>` they compare with. */
  ghost predicate IsStrictOrderOn<T>(lt: (T, T) -> bool, s: seq<T>)
  {
    (forall i :: 0 <= i < |s| ==> !lt(s[i], s[i])) &&
    (forall i, j, k :: 0 <= i < |s| && 0 <= j < |s| && 0 <= k < |s| ==>
       lt(s[i], s[j]) && lt(s[j], s[k]) ==> lt(s[i], s[k]))
  }

  class DList<T(==)> {
    var size: nat
    var head: DListNode?<T>
    var tail: DListNode?<T>

    /** The nodes from head to tail. */
    ghost var nodes: seq<DListNode<T>>
    /** The items from head to tail: the value of the list. */
    ghost var Contents: seq<T>
    ghost var Repr: set<object>

    /** The representation invariant: `size` counts the nodes, `head` and
     *  `tail` are the first and last of them (both null when there are
     *  none), the nodes are distinct, neighbours link to each other both
     *  ways, the ends have no outer link, and the nodes hold `Contents`. */
    ghost predicate Valid()
      reads this, Repr
      ensures Valid() ==> this in Repr
    {
      this in Repr &&
      size == |nodes| && |Contents| == |nodes| &&
      (forall k :: 0 <= k < |nodes| ==> nodes[k] in Repr) &&
      (forall i, j :: 0 <= i < j < |nodes| ==> nodes[i] != nodes[j]) &&
      head == (if |nodes| == 0 then null else nodes[0]) &&
      tail == (if |nodes| == 0 then null else nodes[|nodes| - 1]) &&
      (forall k :: 0 <= k < |nodes| ==> nodes[k].item == Contents[k]) &&
      (|nodes| > 0 ==> nodes[0].prev == null && nodes[|nodes| - 1].next == null) &&
      (forall k :: 0 <= k < |nodes| - 1 ==> nodes[k].next == nodes[k + 1] && nodes[k + 1].prev == nodes[k])
    }

    /** `DList(seq)`: a list holding the items of `s`, appended in order. */
    constructor (s: seq<T>)
      ensures Valid() && fresh(Repr)
      ensures Contents == s
    {
      size := 0;
      head := null;
      tail := null;
      nodes := [];
      Contents := [];
      Repr := {this};
      new;
      if |s| > 0 {
        Extend(s);
      }
    }

    /** `__len__`. */
    method Len() returns (n: nat)
      requires Valid()
      ensures n == |Contents|
    {
      n := size;
    }

    /** `__iter__`: the items from head to tail. */
    method Iter() returns (items: seq<T>)
      requires Valid()
      ensures items == Contents
    {
      items := [];
      var curNode := head;
      ghost var k := 0;
      while curNode != null
        invariant 0 <= k <= size
        invariant curNode == (if k < size then nodes[k] else null)
        invariant items == Contents[..k]
        decreases size - k
      {
        items := items + [curNode.item];
        curNode := curNode.next;
        k := k + 1;
      }
    }

    /** `reverse_iter`: the items from tail to head. */
    method ReverseIter() returns (items: seq<T>)
      requires Valid()
      ensures items == Reverse(Contents)
    {
      items := [];
      var curNode := tail;
      ghost var k := size;
      while curNode != null
        invariant 0 <= k <= size
        invariant curNode == (if k > 0 then nodes[k - 1] else null)
        invariant |items| == size - k
        invariant forall j :: 0 <= j < |items| ==> items[j] == Contents[size - 1 - j]
        decreases k
      {
        items := items + [curNode.item];
        curNode := curNode.prev;
        k := k - 1;
      }
      forall j | 0 <= j < |items|
        ensures items[j] == Reverse(Contents)[j]
      {
        ReverseIndex(Contents, j);
      }
    }

    /** `_find(position)`: the node at a position, walking from whichever end
     *  is nearer.  `steps` counts the links followed. */
    method Find(position: int) returns (r: Result<DListNode<T>>, ghost steps: nat)
      requires Valid()
      ensures r.Ok? <==> InRange(size, position)
      ensures r.Err? ==> r.error == IndexError
      ensures r.Ok? ==> r.value == nodes[Normalize(size, position)]
      ensures steps <= size / 2
    {
      if !InRange(size, position) {
        return Err(IndexError), 0;
      }
      var p := position;
      if p < 0 {
        p := size + p;
      }
      var curNode: DListNode<T>;
      if size / 2 > p {
        curNode := head;
        var i := 0;
        steps := 0;
        while i < p
          invariant 0 <= i <= p
          invariant curNode == nodes[i]
          invariant steps == i
        {
          assert curNode.next == nodes[i + 1];
          curNode := curNode.next;
          steps := steps + 1;
          i := i + 1;
        }
      } else {
        curNode := tail;
        var i := 0;
        steps := 0;
        while i < size - p - 1
          invariant 0 <= i <= size - p - 1
          invariant curNode == nodes[size - 1 - i]
          invariant steps == i
        {
          assert curNode.prev == nodes[size - 2 - i];
          curNode := curNode.prev;
          steps := steps + 1;
          i := i + 1;
        }
      }
      r := Ok(curNode);
    }

    /** `__getitem__`. */
    method GetItem(position: int) returns (r: Result<T>)
      requires Valid()
      ensures r == ItemAt(Contents, position)
    {
      if !InRange(size, position) {
        return Err(IndexError);
      }
      var f;
      ghost var steps;
      f, steps := Find(position);
      r := Ok(f.value.item);
    }

    /** `__setitem__`: only the node at `position` changes. */
    method SetItem(position: int, value: T) returns (st: Status)
      requires Valid()
      modifies Repr
      ensures Valid() && Repr == old(Repr) && nodes == old(nodes)
      ensures st == StatusOf(WithItem(old(Contents), position, value))
      ensures Contents == After(WithItem(old(Contents), position, value), old(Contents))
    {
      var f;
      ghost var steps;
      f, steps := Find(position);
      if f.Err? {
        return Raised(f.error);
      }
      f.value.item := value;
      Contents := Contents[Normalize(size, position) := value];
      st := Done;
    }

    /** `__delitem__`: hands the raw position to `_delete`. */
    method DelItem(position: int) returns (st: Status)
      requires Valid()
      requires !DeleteCrashes(size, position)
      modifies Repr
      ensures Valid() && Repr <= old(Repr)
      ensures st == StatusOf(Deleted(old(Contents), position))
      ensures Contents == After(Deleted(old(Contents), position), old(Contents))
    {
      st := Delete(position);
    }

    /** `_delete(position)`: unlink one node, in one of four ways: the sole
     *  node, the tail, the head, or a node spliced out after the node that
     *  `position - 1` resolves to.  The nodes that stay keep their items. */
    method Delete(position: int) returns (st: Status)
      requires Valid()
      requires !DeleteCrashes(size, position)
      modifies Repr
      ensures Valid() && Repr <= old(Repr)
      ensures st == StatusOf(Deleted(old(Contents), position))
      ensures Contents == After(Deleted(old(Contents), position), old(Contents))
      ensures forall k :: 0 <= k < |old(nodes)| ==> old(nodes)[k].item == old(nodes[k].item)
    {
      if size == 1 {
        UnlinkSole();
      } else if size - 1 == position {
        UnlinkTail();
      } else if position == 0 {
        UnlinkHead();
      } else {
        var f;
        ghost var steps;
        f, steps := Find(position - 1);
        if f.Err? {
          return Raised(f.error);
        }
        UnlinkAfter(f.value, Normalize(size, position - 1));
      }
      st := Done;
    }

    /** The first case of `_delete`: the list held one node. */
    method UnlinkSole()
      requires Valid() && size == 1
      modifies Repr
      ensures Valid() && Repr <= old(Repr)
      ensures Contents == []
      ensures forall k :: 0 <= k < |old(nodes)| ==> old(nodes)[k].item == old(nodes[k].item)
    {
      head := null;
      tail := null;
      nodes, Contents, Repr := [], [], {this};
      size := size - 1;
    }

    /** The second case of `_delete`: the tail goes, its predecessor becomes
     *  the tail. */
    method UnlinkTail()
      requires Valid() && size >= 2
      modifies Repr
      ensures Valid() && Repr <= old(Repr)
      ensures Contents == old(Contents)[..old(size) - 1]
      ensures forall k :: 0 <= k < |old(nodes)| ==> old(nodes)[k].item == old(nodes[k].item)
    {
      ghost var gone := tail;
      assert tail.prev == nodes[size - 2];
      tail := tail.prev;
      tail.next := null;
      nodes, Contents := nodes[..size - 1], Contents[..size - 1];
      Repr := Repr - {gone};
      size := size - 1;
    }

    /** The third case of `_delete`: the head goes, its successor becomes
     *  the head. */
    method UnlinkHead()
      requires Valid() && size >= 2
      modifies Repr
      ensures Valid() && Repr <= old(Repr)
      ensures Contents == old(Contents)[1..]
      ensures forall k :: 0 <= k < |old(nodes)| ==> old(nodes)[k].item == old(nodes[k].item)
    {
      ghost var gone := head;
      assert head.next == nodes[1];
      head := head.next;
      head.prev := null;
      nodes, Contents := nodes[1..], Contents[1..];
      Repr := Repr - {gone};
      size := size - 1;
    }

    /** The last case of `_delete`: the node after `prevNode`, which is
     *  neither the head nor the tail, is spliced out. */
    method UnlinkAfter(prevNode: DListNode<T>, ghost j: int)
      requires Valid() && 0 <= j < size - 2 && prevNode == nodes[j]
      modifies Repr
      ensures Valid() && Repr <= old(Repr)
      ensures Contents == old(Contents)[..j + 1] + old(Contents)[j + 2..]
      ensures forall k :: 0 <= k < |old(nodes)| ==> old(nodes)[k].item == old(nodes[k].item)
    {
      ghost var gone := nodes[j + 1];
      assert prevNode.next == nodes[j + 1] && nodes[j + 1].next == nodes[j + 2];
      prevNode.next := prevNode.next.next;
      prevNode.next.prev := prevNode;
      nodes, Contents := nodes[..j + 1] + nodes[j + 2..], Contents[..j + 1] + Contents[j + 2..];
      Repr := Repr - {gone};
      size := size - 1;
    }

    /** `append(x)`. */
    method Append(x: T)
      requires Valid()
      modifies Repr
      ensures Valid() && fresh(Repr - old(Repr))
      ensures Contents == old(Contents) + [x]
      ensures forall k :: 0 <= k < |old(nodes)| ==> old(nodes)[k].item == old(nodes[k].item)
    {
      if size == 0 {
        head := new DListNode(x, null, null);
        tail := head;
        nodes := [head];
        Repr := Repr + {head};
      } else {
        tail.next := new DListNode(x, tail, null);
        tail := tail.next;
        nodes := nodes + [tail];
        Repr := Repr + {tail};
      }
      size := size + 1;
      Contents := Contents + [x];
    }

    /** `insert(i, x)`: insert `x` before position `i`. */
    method Insert(i: int, x: T) returns (st: Status)
      requires Valid()
      requires i == 0 ==> size > 0
      modifies Repr
      ensures Valid() && fresh(Repr - old(Repr))
      ensures st == StatusOf(Inserted(old(Contents), i, x))
      ensures Contents == After(Inserted(old(Contents), i, x), old(Contents))
    {
      if i == 0 {
        LinkHead(x);
      } else if i >= size {
        Append(x);
      } else {
        var f;
        ghost var steps;
        f, steps := Find(i - 1);
        if f.Err? {
          return Raised(f.error);
        }
        LinkAfter(f.value, Normalize(size, i - 1), x);
      }
      st := Done;
    }

    /** The first case of `insert`: a new head in front of the old one. */
    method LinkHead(x: T)
      requires Valid() && size > 0
      modifies Repr
      ensures Valid() && fresh(Repr - old(Repr))
      ensures Contents == [x] + old(Contents)
    {
      head.prev := new DListNode(x, null, head);
      head := head.prev;
      size := size + 1;
      nodes, Contents := [head] + nodes, [x] + Contents;
      Repr := Repr + {head};
    }

    /** The last case of `insert`: a new node spliced in after `prevNode`,
     *  which is not the tail. */
    method LinkAfter(prevNode: DListNode<T>, ghost j: int, x: T)
      requires Valid() && 0 <= j < size - 1 && prevNode == nodes[j]
      modifies Repr
      ensures Valid() && fresh(Repr - old(Repr))
      ensures Contents == old(Contents)[..j + 1] + [x] + old(Contents)[j + 1..]
    {
      ghost var before := nodes;
      assert prevNode.next == nodes[j + 1];
      var newNode := new DListNode(x, prevNode, prevNode.next);
      newNode.next.prev := newNode;
      prevNode.next := newNode;
      size := size + 1;
      nodes := nodes[..j + 1] + [newNode] + nodes[j + 1..];
      Contents := Contents[..j + 1] + [x] + Contents[j + 1..];
      Repr := Repr + {newNode};
      forall i | 0 <= i < |nodes|
        ensures nodes[i] in Repr && nodes[i].item == Contents[i]
        ensures i < |nodes| - 1 ==> nodes[i].next == nodes[i + 1] && nodes[i + 1].prev == nodes[i]
      {
        if i < j {
          assert nodes[i] == before[i] && nodes[i + 1] == before[i + 1];
        } else if j + 1 < i {
          assert nodes[i] == before[i - 1];
          assert i < |nodes| - 1 ==> nodes[i + 1] == before[i];
        }
      }
      forall a, b | 0 <= a < b < |nodes|
        ensures nodes[a] != nodes[b]
      {
        var a', b' := if a <= j then a else a - 1, if b <= j then b else b - 1;
        if a != j + 1 && b != j + 1 {
          assert nodes[a] == before[a'] && nodes[b] == before[b'];
        }
      }
    }

    /** `pop(i)`; `i == None` stands for the omitted argument. */
    method Pop(i: Option<int>) returns (r: Result<T>)
      requires Valid()
      requires i == Some(-1) ==> size < 2
      modifies Repr
      ensures Valid() && Repr <= old(Repr)
      ensures r.Ok? <==> Popped(old(Contents), i).Ok?
      ensures r.Ok? ==> r.value == Popped(old(Contents), i).value.1
      ensures r.Ok? ==> Contents == Popped(old(Contents), i).value.0
      ensures r.Err? ==> r.error == Popped(old(Contents), i).error && Contents == old(Contents)
    {
      var p: int;
      if i.None? {
        p := size - 1;
      } else if Abs(i.value) - 1 >= size && size <= i.value {
        return Err(IndexError);
      } else {
        p := i.value;
      }
      var f;
      ghost var steps;
      f, steps := Find(p);
      if f.Err? {
        return Err(f.error);
      }
      var returnNode := f.value;
      var st := Delete(p);
      if st.Raised? {
        return Err(st.error);
      }
      r := Ok(returnNode.item);
    }

    /** `remove(x)`: delete the first occurrence of `x`. */
    method Remove(x: T) returns (st: Status)
      requires Valid()
      modifies Repr
      ensures Valid() && Repr <= old(Repr)
      ensures st == StatusOf(Removed(old(Contents), x))
      ensures Contents == After(Removed(old(Contents), x), old(Contents))
    {
      var i := Index(x, 0);
      if i.Err? {
        return Raised(i.error);
      }
      IndexAgreesFromNonNegativeStart(Contents, x, 0);
      if i.value.Some? {
        st := Delete(i.value.value);
      } else {
        st := Raised(ValueError);
      }
    }

    /** `__min__`: the least item under `lt`, or ValueError when empty. */
    method Min(lt: (T, T) -> bool) returns (r: Result<T>)
      requires Valid()
      requires IsStrictOrderOn(lt, Contents)
      ensures r.Ok? <==> |Contents| > 0
      ensures r.Err? ==> r.error == ValueError
      ensures r.Ok? ==> r.value in Contents
      ensures r.Ok? ==> forall j :: 0 <= j < |Contents| ==> !lt(Contents[j], r.value)
    {
      if size == 0 {
        return Err(ValueError);
      }
      var curNode := head;
      var minimum := head.item;
      ghost var m := 0;
      ghost var k := 0;
      while curNode != null
        invariant 0 <= k <= size && 0 <= m < size
        invariant curNode == (if k < size then nodes[k] else null)
        invariant minimum == Contents[m]
        invariant forall j :: 0 <= j < k ==> !lt(Contents[j], minimum)
        decreases size - k
      {
        if lt(curNode.item, minimum) {
          minimum := curNode.item;
          m := k;
        }
        curNode := curNode.next;
        k := k + 1;
      }
      r := Ok(minimum);
    }

    /** `__max__`: the greatest item under `lt` (`a > b` read as `lt(b, a)`),
     *  or ValueError when empty. */
    method Max(lt: (T, T) -> bool) returns (r: Result<T>)
      requires Valid()
      requires IsStrictOrderOn(lt, Contents)
      ensures r.Ok? <==> |Contents| > 0
      ensures r.Err? ==> r.error == ValueError
      ensures r.Ok? ==> r.value in Contents
      ensures r.Ok? ==> forall j :: 0 <= j < |Contents| ==> !lt(r.value, Contents[j])
    {
      if size == 0 {
        return Err(ValueError);
      }
      var curNode := head;
      var maximum := head.item;
      ghost var m := 0;
      ghost var k := 0;
      while curNode != null
        invariant 0 <= k <= size && 0 <= m < size
        invariant curNode == (if k < size then nodes[k] else null)
        invariant maximum == Contents[m]
        invariant forall j :: 0 <= j < k ==> !lt(maximum, Contents[j])
        decreases size - k
      {
        if lt(maximum, curNode.item) {
          maximum := curNode.item;
          m := k;
        }
        curNode := curNode.next;
        k := k + 1;
      }
      r := Ok(maximum);
    }

    /** `extend(l)`: append the items of `l` in order. */
    method Extend(l: seq<T>)
      requires Valid()
      modifies Repr
      ensures Valid() && fresh(Repr - old(Repr))
      ensures Contents == old(Contents) + l
    {
      var i := 0;
      while i < |l|
        invariant 0 <= i <= |l|
        invariant Valid() && fresh(Repr - old(Repr))
        invariant Contents == old(Contents) + l[..i]
      {
        Append(l[i]);
        i := i + 1;
      }
    }
    /** `count(x)`: the number of occurrences of `x`. */
    method Count(x: T) returns (tally: nat)
      requires Valid()
      ensures tally == multiset(Contents)[x]
    {
      tally := 0;
      var curNode := head;
      ghost var k := 0;
      while curNode != null
        invariant 0 <= k <= size
        invariant curNode == (if k < size then nodes[k] else null)
        invariant tally == multiset(Contents[..k])[x]
        decreases size - k
      {
        if curNode.item == x {
          tally := tally + 1;
        }
        assert Contents[..k + 1] == Contents[..k] + [Contents[k]];
        curNode := curNode.next;
        k := k + 1;
      }
      assert Contents[..size] == Contents;
    }

    /** `index(x, start)` as the code computes it: the walk starts at the
     *  node `start` denotes, while the position reported counts from
     *  `start` itself. */
    method Index(x: T, start: int) returns (r: Result<Option<int>>)
      requires Valid()
      ensures r == IndexAsWritten(Contents, x, start)
    {
      var f;
      ghost var steps;
      f, steps := Find(start);
      if f.Err? {
        return Err(f.error);
      }
      var curNode: DListNode?<T> := f.value;
      var position := start;
      ghost var from := Normalize(size, start);
      ghost var k := from;
      while curNode != null && curNode.item != x
        invariant from <= k <= size
        invariant curNode == (if k < size then nodes[k] else null)
        invariant position == start + (k - from)
        invariant forall j :: from <= j < k ==> Contents[j] != x
        decreases size - k
      {
        curNode := curNode.next;
        position := position + 1;
        k := k + 1;
      }
      FirstFromSkip(Contents, x, from, k);
      if size == position {
        r := Ok(None);
      } else {
        r := Ok(Some(position));
      }
    }
  }
}
