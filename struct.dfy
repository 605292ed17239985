/** hpack/struct.py: the header tuples and the singly linked list, kept
    ordered by value, that the decoder uses as a queue of blocked streams. */
module Struct {
  import opened Errors
  import opened Bytes

  /** HeaderTuple and NeverIndexedHeaderTuple: a name-value pair and whether
      it may enter a compression context. */
  datatype Header =
    | HeaderTuple(name: seq<byte>, value: seq<byte>)
    | NeverIndexedHeaderTuple(name: seq<byte>, value: seq<byte>)
  {
    /** The class attribute `indexable`. */
    predicate Indexable() { HeaderTuple? }
  }

  /** How the encoder reads a HeaderTuple: sensitive exactly when it may not
      be indexed. */
  function Sensitive(h: Header): (r: bool)
    ensures r <==> h.NeverIndexedHeaderTuple?
    ensures r <==> !h.Indexable()
  {
    !h.Indexable()
  }

  // ---------------------------------------------------------------------
  // Specification of the list as a sequence of (key, value) pairs

  /** Values never decrease from head to tail. */
  ghost predicate Sorted(s: seq<(int, int)>)
  {
    forall i, j :: 0 <= i < j < |s| ==> s[i].1 <= s[j].1
  }

  /** `s` with `x` placed at position `i`. */
  function InsertAt<T>(s: seq<T>, i: nat, x: T): (r: seq<T>)
    requires i <= |s|
    ensures |r| == |s| + 1 && r[i] == x
    ensures forall k :: 0 <= k < i ==> r[k] == s[k]
    ensures forall k :: i < k < |r| ==> r[k] == s[k - 1]
    ensures multiset(r) == multiset(s) + multiset{x}
  {
    assert s == s[..i] + s[i..];
    s[..i] + [x] + s[i..]
  }

  /** `s` without its entry at position `i`. */
  function RemoveAt<T>(s: seq<T>, i: nat): (r: seq<T>)
    requires i < |s|
    ensures |r| == |s| - 1
    ensures forall k :: 0 <= k < i ==> r[k] == s[k]
    ensures forall k :: i <= k < |r| ==> r[k] == s[k + 1]
    ensures multiset(r) == multiset(s) - multiset{s[i]}
  {
    assert s == s[..i] + [s[i]] + s[i + 1..];
    s[..i] + s[i + 1..]
  }

  lemma RemoveFirst<T>(s: seq<T>)
    requires |s| > 0
    ensures RemoveAt(s, 0) == s[1..]
  {
  }

  /** The first position j >= from holding a value of at least v, or |s|. */
  function FirstAtLeast(s: seq<(int, int)>, v: int, from: nat): (j: nat)
    requires from <= |s|
    ensures from <= j <= |s|
    ensures forall m :: from <= m < j ==> s[m].1 < v
    ensures j < |s| ==> s[j].1 >= v
    decreases |s| - from
  {
    if from == |s| then |s|
    else if s[from].1 >= v then from
    else FirstAtLeast(s, v, from + 1)
  }

  /** Where insert places a node of value v: alone in an empty list, last
      when v reaches the tail's value, first when v is below the head's,
      and otherwise before the first later node of value at least v. */
  function InsertPosition(s: seq<(int, int)>, v: int): (i: nat)
    ensures i <= |s|
    ensures |s| > 0 && v >= s[|s| - 1].1 ==> i == |s|
    ensures |s| > 0 && v < s[|s| - 1].1 ==> i < |s| && s[i].1 >= v
    ensures 0 < i < |s| ==> s[i - 1].1 <= v
  {
    if |s| == 0 then 0
    else if v >= s[|s| - 1].1 then |s|
    else if v < s[0].1 then 0
    else FirstAtLeast(s, v, 1)
  }

  /** The length of the longest prefix whose values are all at most v. */
  function PrefixLen(s: seq<(int, int)>, v: int): (n: nat)
    ensures n <= |s|
    ensures forall m :: 0 <= m < n ==> s[m].1 <= v
    ensures n < |s| ==> s[n].1 > v
  {
    if |s| == 0 || s[0].1 > v then 0 else 1 + PrefixLen(s[1..], v)
  }

  /** The position of the first pair with key k, or |s| when there is none. */
  function KeyIndex(s: seq<(int, int)>, k: int): (i: nat)
    ensures i <= |s|
    ensures forall m :: 0 <= m < i ==> s[m].0 != k
    ensures i < |s| ==> s[i].0 == k
  {
    if |s| == 0 then 0
    else if s[0].0 == k then 0
    else 1 + KeyIndex(s[1..], k)
  }

  /** The keys of a sequence of pairs, in order. */
  function Keys(s: seq<(int, int)>): (r: seq<int>)
    ensures |r| == |s|
    ensures forall i :: 0 <= i < |s| ==> r[i] == s[i].0
  {
    if |s| == 0 then [] else [s[0].0] + Keys(s[1..])
  }

  // ---------------------------------------------------------------------
  // Properties of the specification

  /** insert keeps a sorted list sorted. */
  lemma InsertKeepsSorted(s: seq<(int, int)>, x: (int, int))
    requires Sorted(s)
    ensures Sorted(InsertAt(s, InsertPosition(s, x.1), x))
  {
    var p := InsertPosition(s, x.1);
    var r := InsertAt(s, p, x);
    forall i, j | 0 <= i < j < |r|
      ensures r[i].1 <= r[j].1
    {
      if j < p {
        assert r[i] == s[i] && r[j] == s[j];
      } else if j == p {
        assert r[i] == s[i] && s[i].1 <= s[p - 1].1;
      } else if i < p {
        assert r[i] == s[i] && r[j] == s[j - 1];
      } else if i == p {
        assert r[j] == s[j - 1] && s[p].1 <= s[j - 1].1;
      } else {
        assert r[i] == s[i - 1] && r[j] == s[j - 1];
      }
    }
  }

  /** On a sorted list the head holds the smallest value and the rest stays
      sorted once it is gone. */
  lemma HeadIsSmallest(s: seq<(int, int)>)
    requires Sorted(s) && |s| > 0
    ensures forall i :: 0 <= i < |s| ==> s[0].1 <= s[i].1
    ensures Sorted(s[1..])
  {
  }

  /** Removing any one entry keeps a sorted list sorted. */
  lemma RemoveKeepsSorted(s: seq<(int, int)>, i: nat)
    requires Sorted(s) && i < |s|
    ensures Sorted(RemoveAt(s, i))
  {
    var r := RemoveAt(s, i);
    forall a, b | 0 <= a < b < |r|
      ensures r[a].1 <= r[b].1
    {
      var a' := if a < i then a else a + 1;
      var b' := if b < i then b else b + 1;
      assert r[a] == s[a'] && r[b] == s[b'];
    }
  }

  /** On a sorted list popMany(v) takes every entry of value at most v and
      leaves only larger ones. */
  lemma {:induction false} PopManySplitsSorted(s: seq<(int, int)>, v: int)
    requires Sorted(s)
    ensures forall i :: 0 <= i < |s| ==> (i < PrefixLen(s, v) <==> s[i].1 <= v)
    ensures Sorted(s[PrefixLen(s, v)..])
  {
    var n := PrefixLen(s, v);
    forall i | 0 <= i < |s|
      ensures i < n <==> s[i].1 <= v
    {
      if i >= n {
        assert s[n].1 <= s[i].1;
      }
    }
  }

  // ---------------------------------------------------------------------
  // The list itself

  class LLNode {
    var key: int
    var value: int
    var next: LLNode?

    constructor (key: int, value: int)
      ensures this.key == key && this.value == value && next == null
    {
      this.key := key;
      this.value := value;
      next := null;
    }
  }

  class LinkedList {
    var head: LLNode?
    var tail: LLNode?
    /** The nodes reachable from head, in order, and their (key, value) pairs. */
    ghost var nodes: seq<LLNode>
    ghost var contents: seq<(int, int)>

    /** head and tail are null together; otherwise head is the first node,
        each node links to the next, and tail is the last, whose next is
        null. */
    ghost predicate Valid()
      reads this, nodes
    {
      && |contents| == |nodes|
      && (forall i, j :: 0 <= i < j < |nodes| ==> nodes[i] != nodes[j])
      && (if |nodes| == 0 then head == null && tail == null
          else head == nodes[0] && tail == nodes[|nodes| - 1] && tail.next == null)
      && (forall i :: 0 <= i < |nodes| - 1 ==> nodes[i].next == nodes[i + 1])
      && (forall i :: 0 <= i < |nodes| ==> contents[i] == (nodes[i].key, nodes[i].value))
    }

    constructor ()
      ensures Valid() && contents == []
    {
      head := null;
      tail := null;
      nodes := [];
      contents := [];
    }

    /** insert(key, value) (hpack/struct.py:71-93). The search loop always
        stops at the tail at the latest, so the final `assert False` of the
        original cannot be reached. */
    method Insert(key: int, value: int)
      requires Valid()
      modifies this, nodes
      ensures Valid()
      ensures contents == InsertAt(old(contents), InsertPosition(old(contents), value), (key, value))
    {
      var newNode := new LLNode(key, value);
      if head == null {
        head, tail := newNode, newNode;
        nodes, contents := [newNode], [(key, value)];
        return;
      }
      assert tail.value == contents[|contents| - 1].1;
      if value >= tail.value {
        LinkAfter(tail, newNode, |nodes|);
        return;
      }
      var prev := head;
      if value < prev.value {
        LinkFirst(newNode);
        assert [(key, value)] + old(contents) == InsertAt(old(contents), 0, (key, value));
        return;
      }
      var node := prev.next;
      ghost var i := 1;
      assert contents[|nodes| - 1].1 > value;
      while node != null && node.value < value
        invariant 1 <= i < |nodes|
        invariant prev == nodes[i - 1] && node == nodes[i]
        invariant forall m :: 1 <= m < i ==> contents[m].1 < value
        decreases |nodes| - i
      {
        prev := node;
        node := prev.next;
        i := i + 1;
      }
      FirstAtLeastIs(contents, value, 1, i);
      LinkAfter(prev, newNode, i);
    }

    /** Links a new, unlinked node in at the head of a non-empty list. */
    method LinkFirst(newNode: LLNode)
      requires Valid() && |nodes| > 0
      requires newNode !in nodes && newNode.next == null
      modifies this, newNode
      ensures Valid()
      ensures nodes == [newNode] + old(nodes)
      ensures contents == [(old(newNode.key), old(newNode.value))] + old(contents)
    {
      newNode.next := head;
      head := newNode;
      nodes := [newNode] + nodes;
      contents := [(newNode.key, newNode.value)] + contents;
    }

    /** Links a new, unlinked node in after `prev` (node i-1), moving tail
        when `prev` was the last node. */
    method LinkAfter(prev: LLNode, newNode: LLNode, ghost i: nat)
      requires Valid() && 1 <= i <= |nodes| && prev == nodes[i - 1]
      requires newNode !in nodes && newNode.next == null
      modifies this, newNode, prev
      ensures Valid()
      ensures nodes == InsertAt(old(nodes), i, newNode)
      ensures contents == InsertAt(old(contents), i, (old(newNode.key), old(newNode.value)))
    {
      ghost var before := nodes;
      newNode.next := prev.next;
      prev.next := newNode;
      if prev == tail {
        tail := newNode;
      }
      nodes := InsertAt(nodes, i, newNode);
      contents := InsertAt(contents, i, (newNode.key, newNode.value));
      forall k | 0 <= k < |nodes| - 1
        ensures nodes[k].next == nodes[k + 1]
      {
        if k < i - 1 {
          assert nodes[k] == before[k] != prev;
        } else if k > i {
          assert nodes[k] == before[k - 1];
        }
      }
    }

    /** Unlinks the node after `prev` (node i-1), moving tail back when
        the last node goes. */
    method UnlinkAfter(prev: LLNode, ghost i: nat)
      requires Valid() && 1 <= i < |nodes| && prev == nodes[i - 1]
      modifies this, prev
      ensures Valid()
      ensures nodes == RemoveAt(old(nodes), i)
      ensures contents == RemoveAt(old(contents), i)
    {
      ghost var before := nodes;
      var node := prev.next;
      assert node == before[i];
      if i < |before| - 1 {
        assert node.next == before[i + 1];
      }
      prev.next := node.next;
      if node.next == null {
        tail := prev;
      }
      nodes := RemoveAt(nodes, i);
      contents := RemoveAt(contents, i);
    }

    /** popSmallest() (hpack/struct.py:53-58): unlinks and returns the head;
        on an empty list reading `node.next` raises AttributeError. */
    method PopSmallest() returns (r: Result<(int, int)>)
      requires Valid()
      modifies this
      ensures Valid()
      ensures old(contents) == [] ==> r == Err(AttributeError) && contents == []
      ensures old(contents) != [] ==> r == Ok(old(contents)[0]) && contents == old(contents)[1..]
    {
      if head == null {
        return Err(AttributeError);
      }
      var node := head;
      DropFirst(node.next, 1);
      r := Ok((node.key, node.value));
    }

    /** popMany(value) (hpack/struct.py:59-68) as it was evidently meant:
        unlinks the longest prefix of nodes whose value is at most `value`,
        returns their pairs in order, and clears tail when nothing is left. */
    method PopMany(value: int) returns (popped: seq<(int, int)>)
      requires Valid()
      modifies this
      ensures Valid()
      ensures popped == old(contents)[..PrefixLen(old(contents), value)]
      ensures contents == old(contents)[PrefixLen(old(contents), value)..]
      ensures nodes == old(nodes)[PrefixLen(old(contents), value)..]
    {
      popped := [];
      var node := head;
      ghost var i := 0;
      while node != null && node.value <= value
        invariant 0 <= i <= |nodes|
        invariant node == if i < |nodes| then nodes[i] else null
        invariant popped == contents[..i]
        invariant forall m :: 0 <= m < i ==> contents[m].1 <= value
        decreases |nodes| - i
      {
        popped := popped + [(node.key, node.value)];
        node := node.next;
        i := i + 1;
      }
      assert PrefixLen(contents, value) == i by {
        PrefixLenIs(contents, value, i);
      }
      DropFirst(node, i);
    }

    /** Makes node i the head, dropping the nodes before it; an emptied list
        gets a null tail. */
    method DropFirst(node: LLNode?, ghost i: nat)
      requires Valid() && i <= |nodes|
      requires node == if i < |nodes| then nodes[i] else null
      modifies this
      ensures Valid()
      ensures nodes == old(nodes)[i..] && contents == old(contents)[i..]
    {
      head := node;
      if node == null {
        tail := null;
      }
      nodes, contents := nodes[i..], contents[i..];
    }

    /** popMany as written: the same walk, but nothing is returned and tail
        is left alone, so a list emptied this way keeps a tail that points
        at an unlinked node. */
    method PopManyAsWritten(value: int)
      requires Valid()
      modifies this
      ensures head == (if PrefixLen(old(contents), value) < |old(nodes)|
                       then old(nodes)[PrefixLen(old(contents), value)] else null)
      ensures tail == old(tail)
      ensures 0 < |old(contents)| == PrefixLen(old(contents), value) ==> head == null && tail != null
    {
      var node := head;
      ghost var i := 0;
      while node != null && node.value <= value
        invariant 0 <= i <= |nodes|
        invariant node == if i < |nodes| then nodes[i] else null
        invariant forall m :: 0 <= m < i ==> contents[m].1 <= value
        decreases |nodes| - i
      {
        node := node.next;
        i := i + 1;
      }
      PrefixLenIs(contents, value, i);
      head := node;
    }

    /** __delitem__(key) (hpack/struct.py:94-112): unlinks the first node
        with that key and returns its pair, moving tail back when the last
        node goes; KeyError when no node has the key. */
    method Delete(key: int) returns (r: Result<(int, int)>)
      requires Valid()
      modifies this, nodes
      ensures Valid()
      ensures KeyIndex(old(contents), key) == |old(contents)| ==>
        r == Err(KeyError) && contents == old(contents)
      ensures KeyIndex(old(contents), key) < |old(contents)| ==>
        && r == Ok(old(contents)[KeyIndex(old(contents), key)])
        && contents == RemoveAt(old(contents), KeyIndex(old(contents), key))
    {
      if head == null {
        return Err(KeyError);
      }
      var prev := head;
      if prev.key == key {
        DropFirst(prev.next, 1);
        RemoveFirst(old(contents));
        return Ok((prev.key, prev.value));
      }
      var node := prev.next;
      ghost var i := 1;
      while node != null && node.key != key
        invariant 1 <= i <= |nodes|
        invariant prev == nodes[i - 1]
        invariant node == if i < |nodes| then nodes[i] else null
        invariant forall m :: 0 <= m < i ==> contents[m].0 != key
        decreases |nodes| - i
      {
        prev := node;
        node := prev.next;
        i := i + 1;
      }
      KeyIndexIs(contents, key, i);
      if node == null {
        return Err(KeyError);
      }
      r := Ok((node.key, node.value));
      UnlinkAfter(prev, i);
    }

    /** __getitem__(key) (hpack/struct.py:113-118) as evidently meant: the
        value of the first node with that key, KeyError when there is none. */
    method GetItem(key: int) returns (r: Result<int>)
      requires Valid()
      ensures KeyIndex(contents, key) == |contents| ==> r == Err(KeyError)
      ensures KeyIndex(contents, key) < |contents| ==> r == Ok(contents[KeyIndex(contents, key)].1)
    {
      var node := head;
      ghost var i := 0;
      while node != null
        invariant 0 <= i <= |nodes|
        invariant node == if i < |nodes| then nodes[i] else null
        invariant forall m :: 0 <= m < i ==> contents[m].0 != key
        decreases |nodes| - i
      {
        if node.key == key {
          KeyIndexIs(contents, key, i);
          return Ok(node.value);
        }
        node := node.next;
        i := i + 1;
      }
      KeyIndexIs(contents, key, i);
      r := Err(KeyError);
    }

    /** __setitem__(key, value) (hpack/struct.py:119-126) as evidently
        meant: overwrites the first matching node's value and returns the old
        one, KeyError when there is none. The node stays where it is, so the
        order by value is not maintained. */
    method SetItem(key: int, value: int) returns (r: Result<int>)
      requires Valid()
      modifies this, nodes
      ensures Valid() && nodes == old(nodes)
      ensures KeyIndex(old(contents), key) == |old(contents)| ==>
        r == Err(KeyError) && contents == old(contents)
      ensures KeyIndex(old(contents), key) < |old(contents)| ==>
        var i := KeyIndex(old(contents), key);
        r == Ok(old(contents)[i].1) && contents == old(contents)[i := (key, value)]
    {
      var node := head;
      ghost var i := 0;
      while node != null && node.key != key
        invariant 0 <= i <= |nodes|
        invariant node == if i < |nodes| then nodes[i] else null
        invariant forall m :: 0 <= m < i ==> contents[m].0 != key
        decreases |nodes| - i
      {
        node := node.next;
        i := i + 1;
      }
      KeyIndexIs(contents, key, i);
      if node == null {
        return Err(KeyError);
      }
      var prev := node.value;
      node.value := value;
      contents := contents[i := (key, value)];
      r := Ok(prev);
    }
  }

  lemma {:induction false} FirstAtLeastIs(s: seq<(int, int)>, v: int, from: nat, j: nat)
    requires from <= j < |s| && s[j].1 >= v
    requires forall m :: from <= m < j ==> s[m].1 < v
    ensures FirstAtLeast(s, v, from) == j
    decreases j - from
  {
    if from < j {
      FirstAtLeastIs(s, v, from + 1, j);
    }
  }

  lemma {:induction false} PrefixLenIs(s: seq<(int, int)>, v: int, n: nat)
    requires n <= |s|
    requires forall m :: 0 <= m < n ==> s[m].1 <= v
    requires n < |s| ==> s[n].1 > v
    ensures PrefixLen(s, v) == n
  {
    if n > 0 {
      PrefixLenIs(s[1..], v, n - 1);
    }
  }

  lemma {:induction false} KeyIndexIs(s: seq<(int, int)>, k: int, n: nat)
    requires n <= |s|
    requires forall m :: 0 <= m < n ==> s[m].0 != k
    ensures n < |s| && s[n].0 == k ==> KeyIndex(s, k) == n
    ensures n == |s| ==> KeyIndex(s, k) == n
  {
    if n > 0 {
      KeyIndexIs(s[1..], k, n - 1);
    }
  }

  // ---------------------------------------------------------------------
  // __getitem__ and __setitem__ as written

  /** What a call does when it may never return. */
  datatype Outcome<T> = Returns(value: T) | Raises(error: Error) | Diverges

  /** __getitem__ as written (hpack/struct.py:113-118): `node` is never
      advanced, so only the head is examined; any other key loops forever. */
  function GetItemAsWritten(s: seq<(int, int)>, key: int): (r: Outcome<int>)
    ensures r.Returns? <==> 0 < |s| && KeyIndex(s, key) == 0
    ensures r.Returns? ==> r.value == s[KeyIndex(s, key)].1
    ensures r == Raises(KeyError) <==> |s| == 0
    ensures r == Diverges <==> 0 < KeyIndex(s, key)
  {
    if |s| == 0 then Raises(KeyError)
    else if s[0].0 == key then Returns(s[0].1)
    else Diverges
  }

  /** __setitem__ as written (hpack/struct.py:119-126): the same loop, so it
      only ever updates the head. Returns the old value and the new pairs. */
  function SetItemAsWritten(s: seq<(int, int)>, key: int, value: int): (r: Outcome<(int, seq<(int, int)>)>)
    ensures r.Returns? <==> 0 < |s| && KeyIndex(s, key) == 0
    ensures r.Returns? ==> r.value == (s[KeyIndex(s, key)].1, s[KeyIndex(s, key) := (key, value)])
    ensures r == Raises(KeyError) <==> |s| == 0
    ensures r == Diverges <==> 0 < KeyIndex(s, key)
  {
    if |s| == 0 then Raises(KeyError)
    else if s[0].0 == key then Returns((s[0].1, s[0 := (key, value)]))
    else Diverges
  }

  /** A key held by the second node: the intended lookup finds it, the
      written one never returns. */
  lemma LookupPastHeadDiverges()
    ensures KeyIndex([(1, 10), (2, 20)], 2) == 1
    ensures GetItemAsWritten([(1, 10), (2, 20)], 2) == Diverges
    ensures SetItemAsWritten([(1, 10), (2, 20)], 2, 30) == Diverges
  {
    assert [(1, 10), (2, 20)][1..] == [(2, 20)];
  }
}
