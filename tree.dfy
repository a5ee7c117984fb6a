/** The node tree and its mutation API. A node (`aJsonObject`) has a type
    tag, a reference flag, an optional name, a value union and a chain of
    children linked through `next`/`prev`. Here the chain of a container is
    the sequence `children`; a node's place in its parent's sequence stands
    for its `next`/`prev` links, and a node outside every sequence is one
    whose links are both null. */
module Tree {
  import opened Common

  /** The `value` union of a node. `newItem` zeroes it. */
  datatype Scalar =
    | Zero
    | BoolVal(b: int)
    | IntVal(i: int)
    | FloatVal(f: real)
    | StrVal(s: Option<bytes>)

  class Item {
    var kind: Kind
    /** The `aJson_IsReference` bit of the type, kept apart from the tag. */
    var isRef: bool
    var name: Option<bytes>
    var value: Scalar
    var children: seq<Item>

    /** `newItem` (aJSON.cpp:50-57) followed by setting the type and the
        value: no name, no children, not a reference. */
    constructor (kind: Kind, value: Scalar)
      ensures this.kind == kind && this.value == value
      ensures !isRef && name == None && children == []
    {
      this.kind := kind;
      this.value := value;
      isRef := false;
      name := None;
      children := [];
    }

    /** `getArraySize` (aJSON.cpp:806-813): the length of the chain, counted
        in an `unsigned char`. */
    method GetArraySize() returns (n: uint8)
      ensures n == |children| % 256
    {
      n := 0;
      var k := 0;
      while k < |children|
        invariant k <= |children| && n == k % 256
      {
        n := (n + 1) % 256;
        k := k + 1;
      }
    }

    /** `getArrayItem` (aJSON.cpp:815-821): the child at index `item`, or
        null past the end. */
    method GetArrayItem(item: uint8) returns (c: Item?)
      ensures item < |children| ==> c == children[item]
      ensures item >= |children| ==> c == null
    {
      var k := 0;
      var left := item;
      while k < |children| && left > 0
        invariant k <= |children| && k + left == item
      {
        left := left - 1;
        k := k + 1;
      }
      c := if k < |children| then children[k] else null;
    }

    /** `getObjectItem` (aJSON.cpp:822-829): the first child whose name is
        `key`, or null. Every child must have a name: `strcmp` on a null
        name is undefined. */
    method GetObjectItem(key: bytes) returns (c: Item?)
      requires Named(children)
      ensures c == null <==> FindName(children, key) == |children|
      ensures c != null ==> c == children[FindName(children, key)] && c.name == Some(key)
    {
      var k := FindNameLoop(children, key);
      c := if k < |children| then children[k] else null;
    }

    /** `addItemToArray` (aJSON.cpp:854-869): a null item is ignored;
        otherwise the item becomes the last child, after the children there
        were. The item is taken to be a lone node (its `next` null). */
    method AddItemToArray(item: Item?)
      modifies this`children
      ensures item == null ==> children == old(children)
      ensures item != null ==> children == old(children) + [item]
    {
      if item == null {
        return;
      }
      children := children + [item];
    }

    /** `addItemToObject` (aJSON.cpp:871-881): the item is named `key`
        (with a copy of it; an old name is freed) and appended. */
    method AddItemToObject(key: bytes, item: Item?)
      modifies this`children, {item} - {null}`name
      ensures item == null ==> children == old(children)
      ensures item != null ==> children == old(children) + [item] && item.name == Some(key)
    {
      if item == null {
        return;
      }
      item.name := Some(key);
      AddItemToArray(item);
    }

    /** `addItemReferenceToArray` (aJSON.cpp:882-886): a reference to
        `item` is appended; `item` itself is left alone. */
    method AddItemReferenceToArray(item: Item) returns (ref: Item)
      modifies this`children
      ensures fresh(ref) && ref.kind == item.kind && ref.isRef && ref.name == None
      ensures ref.value == item.value && ref.children == old(item.children)
      ensures children == old(children) + [ref]
    {
      ref := CreateReference(item);
      AddItemToArray(ref);
    }

    /** `addItemReferenceToObject` (aJSON.cpp:887-892). */
    method AddItemReferenceToObject(key: bytes, item: Item) returns (ref: Item)
      modifies this`children
      ensures fresh(ref) && ref.name == Some(key)
      ensures ref.kind == item.kind && ref.isRef && ref.value == item.value
      ensures ref.children == old(item.children)
      ensures children == old(children) + [ref]
    {
      ref := CreateReference(item);
      AddItemToObject(key, ref);
    }

    /** `detachItemFromArray` (aJSON.cpp:894-910): unlinks and returns the
        child at index `which`, keeping the others in order; null, with the
        chain unchanged, when there is no such child. */
    method DetachItemFromArray(which: uint8) returns (c: Item?)
      modifies this`children
      ensures which < |old(children)| ==> c == old(children)[which] && children == RemoveAt(old(children), which)
      ensures which >= |old(children)| ==> c == null && children == old(children)
    {
      var k := 0;
      var left := which;
      while k < |children| && left > 0
        invariant k <= |children| && k + left == which
      {
        k := k + 1;
        left := left - 1;
      }
      if k == |children| {
        return null;
      }
      c := children[k];
      children := children[..k] + children[k + 1..];
    }

    /** `deleteItemFromArray` (aJSON.cpp:911-915): detaches the child, then
        `deleteItem` on it (nothing when there was none). */
    method DeleteItemFromArray(which: uint8, ghost h: nat) returns (freed: seq<Item>, strings: seq<Item>)
      requires which < |children| ==> Finite([children[which]], h) && this !in Nodes([children[which]], h)
      modifies this`children
      ensures which < |old(children)| ==> children == RemoveAt(old(children), which)
      ensures which < |old(children)| ==>
        freed == old(FreedNodes([children[which]], h)) && strings == old(FreedStrings([children[which]], h))
      ensures which >= |old(children)| ==> children == old(children) && freed == [] && strings == []
    {
      var c := DetachItemFromArray(which);
      if c == null {
        return [], [];
      }
      KeptBelow(c, h, this);
      freed, strings := DeleteItem([c], h);
    }

    /** `detachItemFromObject` (aJSON.cpp:916-926): finds the first child
        named `key`, counting its index in an `unsigned char`, and detaches
        the child at that index; null when no child is named `key`. Past
        255 children the count wraps and another child is detached. */
    method DetachItemFromObject(key: bytes) returns (c: Item?)
      requires Named(children)
      modifies this`children
      ensures var k := old(FindName(children, key));
              k < |old(children)| ==> c == old(children)[k % 256] && children == RemoveAt(old(children), k % 256)
      ensures old(FindName(children, key)) == |old(children)| ==> c == null && children == old(children)
    {
      var i := FindIndex(key);
      if i.None? {
        return null;
      }
      c := DetachItemFromArray(i.value);
    }

    /** `deleteItemFromObject` (aJSON.cpp:927-931). */
    method DeleteItemFromObject(key: bytes, ghost h: nat) returns (freed: seq<Item>, strings: seq<Item>)
      requires Named(children)
      requires var k := FindName(children, key);
               k < |children| ==> Finite([children[k % 256]], h) && this !in Nodes([children[k % 256]], h)
      modifies this`children
      ensures var k := old(FindName(children, key));
              k < |old(children)| ==>
                children == RemoveAt(old(children), k % 256) &&
                freed == old(FreedNodes([children[k % 256]], h)) &&
                strings == old(FreedStrings([children[k % 256]], h))
      ensures old(FindName(children, key)) == |old(children)| ==>
                children == old(children) && freed == [] && strings == []
    {
      var c := DetachItemFromObject(key);
      var chain: seq<Item> := [];
      if c != null {
        KeptBelow(c, h, this);
        chain := [c];
      }
      freed, strings := DeleteItem(chain, h);
    }

    /** The search loop shared by `detachItemFromObject` and
        `replaceItemInObject`: the `unsigned char` index of the first child
        named `key`, if any. */
    method FindIndex(key: bytes) returns (i: Option<uint8>)
      requires Named(children)
      ensures FindName(children, key) < |children| ==> i == Some(FindName(children, key) % 256)
      ensures FindName(children, key) == |children| ==> i == None
    {
      var n: uint8 := 0;
      var k := 0;
      while k < |children| && children[k].name.value != key
        invariant k <= |children| && n == k % 256
        invariant forall j :: 0 <= j < k ==> children[j].name != Some(key)
      {
        n := (n + 1) % 256;
        k := k + 1;
      }
      FindNameUnique(children, key, k);
      i := if k < |children| then Some(n) else None;
    }

    /** `replaceItemInArray` (aJSON.cpp:934-953): `newitem` takes the place
        of the child at index `which`, which is then deleted; nothing
        happens when there is no such child. */
    method ReplaceItemInArray(which: uint8, newitem: Item, ghost h: nat) returns (freed: seq<Item>, strings: seq<Item>)
      requires which < |children| ==> Finite([children[which]], h) && this !in Nodes([children[which]], h)
      modifies this`children
      ensures which < |old(children)| ==> children == old(children)[which := newitem]
      ensures which < |old(children)| ==>
        freed == old(FreedNodes([children[which]], h)) && strings == old(FreedStrings([children[which]], h))
      ensures which >= |old(children)| ==> children == old(children) && freed == [] && strings == []
    {
      var k := 0;
      var left := which;
      while k < |children| && left > 0
        invariant k <= |children| && k + left == which
      {
        k := k + 1;
        left := left - 1;
      }
      if k == |children| {
        return [], [];
      }
      var c := children[k];
      children := children[k := newitem];
      KeptBelow(c, h, this);
      freed, strings := DeleteItem([c], h);
    }

    /** `replaceItemInObject` (aJSON.cpp:954-968): when a child is named
        `key`, `newitem` gets that name and replaces the child at the
        `unsigned char` index of the first match. */
    method ReplaceItemInObject(key: bytes, newitem: Item, ghost h: nat) returns (freed: seq<Item>, strings: seq<Item>)
      requires Named(children)
      requires var k := FindName(children, key);
               k < |children| ==> Finite([children[k % 256]], h) && this !in Nodes([children[k % 256]], h)
      modifies this`children, newitem`name
      ensures var k := old(FindName(children, key));
              k < |old(children)| ==>
                newitem.name == Some(key) &&
                children == old(children)[k % 256 := newitem] &&
                freed == old(FreedNodes([children[k % 256]], h)) &&
                strings == old(FreedStrings([children[k % 256]], h))
      ensures old(FindName(children, key)) == |old(children)| ==>
                children == old(children) && newitem.name == old(newitem.name) && freed == [] && strings == []
    {
      var i := FindIndex(key);
      if i.None? {
        return [], [];
      }
      ghost var k := FindName(children, key);
      ghost var target := children[k % 256];
      newitem.name := Some(key);
      KeptBelow(target, h, this);
      freed, strings := ReplaceItemInArray(i.value, newitem, h);
    }

    /** `addNullToObject` (aJSON.cpp:1135-1139). */
    method AddNullToObject(key: bytes) returns (item: Item)
      modifies this`children
      ensures fresh(item) && item.kind == Null && item.name == Some(key)
      ensures children == old(children) + [item]
    {
      item := CreateNull();
      AddItemToObject(key, item);
    }

    /** `addTrueToObject` (aJSON.cpp:1141-1145). */
    method AddTrueToObject(key: bytes) returns (item: Item)
      modifies this`children
      ensures fresh(item) && item.kind == True && item.value == BoolVal(-1) && item.name == Some(key)
      ensures children == old(children) + [item]
    {
      item := CreateTrue();
      AddItemToObject(key, item);
    }

    /** `addFalseToObject` (aJSON.cpp:1147-1151). */
    method AddFalseToObject(key: bytes) returns (item: Item)
      modifies this`children
      ensures fresh(item) && item.kind == False && item.value == BoolVal(0) && item.name == Some(key)
      ensures children == old(children) + [item]
    {
      item := CreateFalse();
      AddItemToObject(key, item);
    }

    /** `addNumberToObject` (aJSON.cpp:1153-1157). */
    method AddNumberToObject(key: bytes, n: int) returns (item: Item)
      modifies this`children
      ensures fresh(item) && item.kind == Int && item.value == IntVal(n) && item.name == Some(key)
      ensures children == old(children) + [item]
    {
      item := CreateInt(n);
      AddItemToObject(key, item);
    }

    /** `addStringToObject` (aJSON.cpp:1159-1164). */
    method AddStringToObject(key: bytes, s: bytes) returns (item: Item)
      modifies this`children
      ensures fresh(item) && item.kind == String && item.value == StrVal(Some(s)) && item.name == Some(key)
      ensures children == old(children) + [item]
    {
      item := CreateString(s);
      AddItemToObject(key, item);
    }
  }

  /** Every node of the chain has a name. */
  ghost predicate Named(chain: seq<Item>)
    reads set c | c in chain
  {
    forall i :: 0 <= i < |chain| ==> chain[i].name.Some?
  }

  /** The index of the first node of the chain named `key`; the length of
      the chain when there is none. */
  function FindName(chain: seq<Item>, key: bytes): (k: nat)
    reads set c | c in chain
    ensures k <= |chain|
    ensures forall j :: 0 <= j < k ==> chain[j].name != Some(key)
    ensures k < |chain| ==> chain[k].name == Some(key)
    decreases |chain|
  {
    if chain == [] then 0
    else if chain[0].name == Some(key) then 0
    else 1 + FindName(chain[1..], key)
  }

  /** The first match is determined by its two characterising facts. */
  lemma {:induction false} FindNameUnique(chain: seq<Item>, key: bytes, k: nat)
    requires k <= |chain|
    requires forall j :: 0 <= j < k ==> chain[j].name != Some(key)
    requires k < |chain| ==> chain[k].name == Some(key)
    ensures FindName(chain, key) == k
    decreases k
  {
    if 0 < k {
      assert chain[0].name != Some(key);
      FindNameUnique(chain[1..], key, k - 1);
    }
  }

  /** The `strcmp` walk of `getObjectItem` (aJSON.cpp:826-828). */
  method FindNameLoop(chain: seq<Item>, key: bytes) returns (k: nat)
    requires Named(chain)
    ensures k == FindName(chain, key)
  {
    k := 0;
    while k < |chain| && chain[k].name.value != key
      invariant k <= |chain|
      invariant forall j :: 0 <= j < k ==> chain[j].name != Some(key)
    {
      k := k + 1;
    }
    FindNameUnique(chain, key, k);
  }

  /** The chain with the node at `i` unlinked. */
  function RemoveAt<T>(s: seq<T>, i: nat): (r: seq<T>)
    requires i < |s|
    ensures |r| == |s| - 1
    ensures forall j :: 0 <= j < i ==> r[j] == s[j]
    ensures forall j :: i <= j < |r| ==> r[j] == s[j + 1]
  {
    s[..i] + s[i + 1..]
  }

  /** Detaching the child just appended gives the chain back. */
  lemma {:induction false} AddThenDetach<T>(s: seq<T>, x: T)
    ensures RemoveAt(s + [x], |s|) == s
  {
    assert (s + [x])[..|s|] == s;
  }

  /** Detaching removes exactly one occurrence of the detached node. */
  lemma {:induction false} RemoveAtMultiset<T>(s: seq<T>, i: nat)
    requires i < |s|
    ensures multiset(RemoveAt(s, i)) + multiset{s[i]} == multiset(s)
  {
    assert s == s[..i] + [s[i]] + s[i + 1..];
  }

  /** After a child is added under a name no earlier child has, looking the
      name up finds that child. */
  lemma {:induction false} AddThenFind(s: seq<Item>, key: bytes, item: Item)
    requires FindName(s, key) == |s| && item.name == Some(key)
    ensures FindName(s + [item], key) == |s|
  {
    var t := s + [item];
    forall j | 0 <= j < |s| ensures t[j].name != Some(key) {
      assert t[j] == s[j];
    }
    FindNameUnique(t, key, |s|);
  }

  /** `ref` is what `createReference(item)` makes of `item`: the same type,
      value and child chain, the reference bit set, no name. */
  ghost predicate ReferenceTo(ref: Item, item: Item)
    reads ref, item
  {
    ref.kind == item.kind && ref.isRef && ref.name == None &&
    ref.value == item.value && ref.children == item.children
  }

  /** `createReference` (aJSON.cpp:840-852): a copy of the node with no
      name and no siblings and the reference bit set. It shares the value
      (a string is not copied) and the child nodes. The chain of those nodes
      is taken as it stands: later appends or detaches through `item` or
      `ref` are not seen by the other, as they are through the shared
      `child` and `next` pointers of the source. */
  method CreateReference(item: Item) returns (ref: Item)
    ensures fresh(ref) && ReferenceTo(ref, item)
  {
    ref := new Item(item.kind, item.value);
    ref.children := item.children;
    ref.isRef := true;
  }

  // ---------------------------------------------------------------------
  // deleteItem

  /** The chain's nodes that `deleteItem` descends from have child chains
      nested no deeper than `h`: the tree below the chain is finite. */
  ghost predicate Finite(chain: seq<Item>, h: nat)
    reads *
    decreases h
  {
    forall i :: 0 <= i < |chain| ==> Descends(chain[i]) ==> h > 0 && Finite(chain[i].children, h - 1)
  }

  /** `deleteItem` descends into a node's children unless it is a
      reference (aJSON.cpp:66-67). */
  ghost predicate Descends(c: Item)
    reads c
  {
    !c.isRef && c.children != []
  }

  /** `deleteItem` frees a node's string when its type is exactly
      `aJson_String` (aJSON.cpp:68-69): the reference bit of a reference's
      type makes that test false. */
  ghost predicate OwnsString(c: Item)
    reads c
  {
    c.kind == String && !c.isRef && c.value.StrVal? && c.value.s.Some?
  }

  /** The nodes `deleteItem` frees in the chain and below, in order: a
      node's children, then the node, then the rest of the chain. */
  ghost function FreedNodes(chain: seq<Item>, h: nat): seq<Item>
    requires Finite(chain, h)
    reads *
    decreases h, |chain|
  {
    if chain == [] then []
    else
      var c := chain[0];
      (if Descends(c) then FreedNodes(c.children, h - 1) else []) + [c] + FreedNodes(chain[1..], h)
  }

  /** The nodes whose string `deleteItem` frees, in the same order. */
  ghost function FreedStrings(chain: seq<Item>, h: nat): seq<Item>
    requires Finite(chain, h)
    reads *
    decreases h, |chain|
  {
    if chain == [] then []
    else
      var c := chain[0];
      (if Descends(c) then FreedStrings(c.children, h - 1) else [])
        + (if OwnsString(c) then [c] else [])
        + FreedStrings(chain[1..], h)
  }

  /** The nodes whose fields `deleteItem` reads in the chain and below. */
  ghost function Nodes(chain: seq<Item>, h: nat): (ns: set<Item>)
    requires Finite(chain, h)
    reads *
    decreases h, |chain|
  {
    if chain == [] then {}
    else
      var c := chain[0];
      {c} + (if Descends(c) then Nodes(c.children, h - 1) else {}) + Nodes(chain[1..], h)
  }

  /** None of the fields `deleteItem` looks at changed on the nodes `s`
      that already existed. */
  twostate predicate Kept(s: set<Item>)
    reads s
  {
    forall y :: y in s && old(allocated(y)) ==>
      old(y.children) == y.children && old(y.isRef) == y.isRef &&
      old(y.kind) == y.kind && old(y.value) == y.value
  }

  /** What `deleteItem` does to a chain depends only on the nodes it reads:
      a change elsewhere, such as unlinking the chain from its parent,
      leaves it as it was. */
  twostate lemma {:induction false} FreedFrame(chain: seq<Item>, new h: nat)
    requires old(Finite(chain, h)) && Kept(old(Nodes(chain, h)))
    ensures Finite(chain, h) && Nodes(chain, h) == old(Nodes(chain, h))
    ensures FreedNodes(chain, h) == old(FreedNodes(chain, h))
    ensures FreedStrings(chain, h) == old(FreedStrings(chain, h))
    decreases h, |chain|
  {
    if chain != [] {
      var c := chain[0];
      assert c in old(Nodes(chain, h));
      if old(Descends(c)) {
        FreedFrame(c.children, h - 1);
      }
      FreedFrame(chain[1..], h);
      forall i | 0 <= i < |chain| ensures Descends(chain[i]) ==> h > 0 && Finite(chain[i].children, h - 1) {
        if i > 0 {
          assert chain[i] == chain[1..][i - 1];
        }
      }
    }
  }

  /** Changing only the chain of a node `x` that the deletion of `c` does
      not read, or any node's name, leaves what `deleteItem` does to `c` as
      it was. */
  twostate lemma KeptBelow(c: Item, new h: nat, new x: Item)
    requires old(Finite([c], h))
    requires x !in old(Nodes([c], h))
    requires forall y: Item :: old(allocated(y)) && y != x ==>
      old(y.children) == y.children && old(y.isRef) == y.isRef &&
      old(y.kind) == y.kind && old(y.value) == y.value
    ensures Finite([c], h) && Nodes([c], h) == old(Nodes([c], h))
    ensures FreedNodes([c], h) == old(FreedNodes([c], h))
    ensures FreedStrings([c], h) == old(FreedStrings([c], h))
  {
    forall y | y in old(Nodes([c], h)) && old(allocated(y))
      ensures old(y.children) == y.children && old(y.isRef) == y.isRef
      ensures old(y.kind) == y.kind && old(y.value) == y.value
    {
      assert y != x;
    }
    FreedFrame([c], h);
  }

  /** The tail of a finite chain is finite. */
  lemma {:induction false} FiniteTail(chain: seq<Item>, h: nat, k: nat)
    requires Finite(chain, h) && k <= |chain|
    ensures Finite(chain[k..], h)
  {
    forall i | 0 <= i < |chain[k..]| ensures Descends(chain[k..][i]) ==> h > 0 && Finite(chain[k..][i].children, h - 1) {
      assert chain[k..][i] == chain[k + i];
    }
  }

  /** Freeing a chain is freeing its head, then its tail. */
  lemma {:induction false} FreedSplit(chain: seq<Item>, h: nat, k: nat)
    requires Finite(chain, h) && k < |chain|
    ensures Finite(chain[k..], h) && Finite(chain[k + 1..], h)
    ensures FreedNodes(chain[k..], h) == FreedNodes([chain[k]], h) + FreedNodes(chain[k + 1..], h)
    ensures FreedStrings(chain[k..], h) == FreedStrings([chain[k]], h) + FreedStrings(chain[k + 1..], h)
  {
    FiniteTail(chain, h, k);
    FiniteTail(chain, h, k + 1);
    var one := [chain[k]];
    assert chain[k..][1..] == chain[k + 1..];
    assert one[1..] == [];
    assert Finite(one, h) by {
      assert one[0] == chain[k];
    }
  }

  /** One turn of the `deleteItem` walk keeps what is left to free. */
  lemma {:induction false} FreedStep(chain: seq<Item>, h: nat, k: nat, freed: seq<Item>, strings: seq<Item>, f: seq<Item>, s: seq<Item>)
    requires Finite(chain, h) && k < |chain|
    requires Finite(chain[k..], h) && Finite(chain[k + 1..], h) && Finite([chain[k]], h)
    requires FreedNodes(chain[k..], h) == FreedNodes([chain[k]], h) + FreedNodes(chain[k + 1..], h)
    requires FreedStrings(chain[k..], h) == FreedStrings([chain[k]], h) + FreedStrings(chain[k + 1..], h)
    requires FreedNodes(chain, h) == freed + FreedNodes(chain[k..], h)
    requires FreedStrings(chain, h) == strings + FreedStrings(chain[k..], h)
    requires f == FreedNodes([chain[k]], h) && s == FreedStrings([chain[k]], h)
    ensures FreedNodes(chain, h) == (freed + f) + FreedNodes(chain[k + 1..], h)
    ensures FreedStrings(chain, h) == (strings + s) + FreedStrings(chain[k + 1..], h)
  {
  }

  /** `deleteItem` (aJSON.cpp:60-75): walks the chain; for each node, deletes
      its children unless it is a reference, frees its string when it owns
      one, frees its name, then frees the node. The freeing itself is not
      modelled: the method returns the nodes freed and the nodes whose
      string is freed. */
  method DeleteItem(chain: seq<Item>, ghost h: nat) returns (freed: seq<Item>, strings: seq<Item>)
    requires Finite(chain, h)
    ensures freed == FreedNodes(chain, h) && strings == FreedStrings(chain, h)
    decreases h, 1
  {
    freed, strings := [], [];
    var k := 0;
    while k < |chain|
      invariant k <= |chain| && Finite(chain[k..], h)
      invariant FreedNodes(chain, h) == freed + FreedNodes(chain[k..], h)
      invariant FreedStrings(chain, h) == strings + FreedStrings(chain[k..], h)
    {
      FreedSplit(chain, h, k);
      var f, s := DeleteNode(chain[k], h);
      FreedStep(chain, h, k, freed, strings, f, s);
      freed, strings := freed + f, strings + s;
      k := k + 1;
    }
    assert chain[k..] == [];
  }

  /** One step of the `deleteItem` walk: the node `c` and what it owns. */
  method DeleteNode(c: Item, ghost h: nat) returns (freed: seq<Item>, strings: seq<Item>)
    requires Finite([c], h)
    ensures freed == FreedNodes([c], h) && strings == FreedStrings([c], h)
    decreases h, 0
  {
    assert [c][0] == c && [c][1..] == [];
    freed, strings := [], [];
    if !c.isRef && c.children != [] {
      freed, strings := DeleteItem(c.children, h - 1);
    }
    if c.kind == String && !c.isRef && c.value.StrVal? && c.value.s.Some? {
      strings := strings + [c];
    }
    // its name, if any, is freed here
    freed := freed + [c];
  }

  /** Deleting a reference frees the reference node alone: neither the
      referenced child chain nor the referenced string. */
  lemma {:induction false} DeleteReference(ref: Item, h: nat)
    requires ref.isRef
    ensures Finite([ref], h)
    ensures FreedNodes([ref], h) == [ref]
    ensures FreedStrings([ref], h) == []
  {
    assert [ref][0] == ref && [ref][1..] == [];
  }

  /** Deleting a string node that is not a reference frees its string. */
  lemma {:induction false} DeleteOwnedString(c: Item, h: nat)
    requires c.kind == String && !c.isRef && c.value.StrVal? && c.value.s.Some? && c.children == []
    ensures Finite([c], h)
    ensures FreedNodes([c], h) == [c] && FreedStrings([c], h) == [c]
  {
    assert [c][0] == c && [c][1..] == [];
  }

  /** Every node of the chain is freed. */
  lemma {:induction false} ChainFreed(chain: seq<Item>, h: nat, i: nat)
    requires Finite(chain, h) && i < |chain|
    ensures chain[i] in FreedNodes(chain, h)
    decreases i
  {
    FiniteTail(chain, h, 1);
    if i > 0 {
      assert chain[1..][i - 1] == chain[i];
      ChainFreed(chain[1..], h, i - 1);
    }
  }

  /** Every node freed below a non-reference is freed with it: a child
      chain is deleted along with its parent. */
  lemma {:induction false} ChildrenFreed(c: Item, h: nat, i: nat)
    requires Finite([c], h) && Descends(c) && i < |c.children|
    ensures c.children[i] in FreedNodes([c], h)
  {
    assert [c][0] == c && [c][1..] == [];
    ChainFreed(c.children, h - 1, i);
  }

  // ---------------------------------------------------------------------
  // Constructors

  /** `createNull` (aJSON.cpp:970-977). */
  method CreateNull() returns (item: Item)
    ensures fresh(item) && item.kind == Null && item.value == Zero
    ensures !item.isRef && item.name == None && item.children == []
  {
    item := new Item(Null, Zero);
  }

  /** `createTrue` (aJSON.cpp:979-988): `valuebool` is -1, where the parser
      stores 1. */
  method CreateTrue() returns (item: Item)
    ensures fresh(item) && item.kind == True && item.value == BoolVal(-1)
    ensures !item.isRef && item.name == None && item.children == []
  {
    item := new Item(True, BoolVal(-1));
  }

  /** `createFalse` (aJSON.cpp:990-999). */
  method CreateFalse() returns (item: Item)
    ensures fresh(item) && item.kind == False && item.value == BoolVal(0)
    ensures !item.isRef && item.name == None && item.children == []
  {
    item := new Item(False, BoolVal(0));
  }

  /** `createItem(char b)` (aJSON.cpp:1001-1011): True with -1 for a
      non-zero `b`, False with 0 otherwise. */
  method CreateBool(b: int) returns (item: Item)
    ensures fresh(item) && item.kind == (if b != 0 then True else False)
    ensures item.value == BoolVal(if b != 0 then -1 else 0)
    ensures !item.isRef && item.name == None && item.children == []
  {
    item := new Item(if b != 0 then True else False, BoolVal(if b != 0 then -1 else 0));
  }

  /** `createItem(int num)` (aJSON.cpp:1013-1023). */
  method CreateInt(num: int) returns (item: Item)
    ensures fresh(item) && item.kind == Int && item.value == IntVal(num)
    ensures !item.isRef && item.name == None && item.children == []
  {
    item := new Item(Int, IntVal(num));
  }

  /** `createItem(float num)` (aJSON.cpp:1025-1035): the number is stored
      as given. */
  method CreateFloat(num: real) returns (item: Item)
    ensures fresh(item) && item.kind == Float && item.value == FloatVal(num)
    ensures !item.isRef && item.name == None && item.children == []
  {
    item := new Item(Float, FloatVal(num));
  }

  /** `createItem(const char *string)` (aJSON.cpp:1037-1047): a String
      holding a copy of `s`. */
  method CreateString(s: bytes) returns (item: Item)
    ensures fresh(item) && item.kind == String && item.value == StrVal(Some(s))
    ensures !item.isRef && item.name == None && item.children == []
  {
    item := new Item(String, StrVal(Some(s)));
  }

  /** `createArray` (aJSON.cpp:1049-1055). */
  method CreateArray() returns (item: Item)
    ensures fresh(item) && item.kind == Array && item.value == Zero
    ensures !item.isRef && item.name == None && item.children == []
  {
    item := new Item(Array, Zero);
  }

  /** `createObject` (aJSON.cpp:1057-1063). */
  method CreateObject() returns (item: Item)
    ensures fresh(item) && item.kind == Object && item.value == Zero
    ensures !item.isRef && item.name == None && item.children == []
  {
    item := new Item(Object, Zero);
  }

  /** The children a builder links: `count` fresh nodes, pairwise distinct,
      none of them a reference or named, holding the given values. */
  ghost predicate BuiltChain(a: Item, kind: Kind, values: seq<Scalar>)
    reads a, set c | c in a.children
  {
    a.kind == Array && |a.children| == |values| &&
    (forall i :: 0 <= i < |values| ==>
       a.children[i].kind == kind && a.children[i].value == values[i] &&
       !a.children[i].isRef && a.children[i].name == None && a.children[i].children == []) &&
    (forall i, j :: 0 <= i < j < |values| ==> a.children[i] != a.children[j])
  }

  /** The values `createIntArray` stores. */
  function IntValues(numbers: seq<int>): (vs: seq<Scalar>)
    ensures |vs| == |numbers| && forall i :: 0 <= i < |numbers| ==> vs[i] == IntVal(numbers[i])
  {
    seq(|numbers|, i requires 0 <= i < |numbers| => IntVal(numbers[i]))
  }

  /** The values `createFloatArray` stores. */
  function FloatValues(numbers: seq<real>): (vs: seq<Scalar>)
    ensures |vs| == |numbers| && forall i :: 0 <= i < |numbers| ==> vs[i] == FloatVal(numbers[i])
  {
    seq(|numbers|, i requires 0 <= i < |numbers| => FloatVal(numbers[i]))
  }

  /** The values `createStringArray` stores. */
  function StringValues(strings: seq<bytes>): (vs: seq<Scalar>)
    ensures |vs| == |strings| && forall i :: 0 <= i < |strings| ==> vs[i] == StrVal(Some(strings[i]))
  {
    seq(|strings|, i requires 0 <= i < |strings| => StrVal(Some(strings[i])))
  }

  /** `createIntArray` (aJSON.cpp:1067-1082): an array of `count` Int
      nodes, the `i`-th holding `numbers[i]`. */
  method CreateIntArray(numbers: seq<int>, count: uint8) returns (a: Item)
    requires count <= |numbers|
    ensures fresh(a) && !a.isRef && a.name == None && a.value == Zero
    ensures forall c :: c in a.children ==> fresh(c)
    ensures BuiltChain(a, Int, IntValues(numbers[..count]))
  {
    a := CreateArray();
    for i := 0 to count
      invariant fresh(a) && a.kind == Array && !a.isRef && a.name == None && a.value == Zero
      invariant forall c :: c in a.children ==> fresh(c)
      invariant BuiltChain(a, Int, IntValues(numbers[..i]))
    {
      var n := CreateInt(numbers[i]);
      a.children := a.children + [n];
    }
  }

  /** `createFloatArray` (aJSON.cpp:1084-1099): the same for Float nodes. */
  method CreateFloatArray(numbers: seq<real>, count: uint8) returns (a: Item)
    requires count <= |numbers|
    ensures fresh(a) && !a.isRef && a.name == None && a.value == Zero
    ensures forall c :: c in a.children ==> fresh(c)
    ensures BuiltChain(a, Float, FloatValues(numbers[..count]))
  {
    a := CreateArray();
    for i := 0 to count
      invariant fresh(a) && a.kind == Array && !a.isRef && a.name == None && a.value == Zero
      invariant forall c :: c in a.children ==> fresh(c)
      invariant BuiltChain(a, Float, FloatValues(numbers[..i]))
    {
      var n := CreateFloat(numbers[i]);
      a.children := a.children + [n];
    }
  }

  /** `createDoubleArray` (aJSON.cpp:1101-1116): its parameter is a `float`
      array too, and its body is that of `createFloatArray`. */
  method CreateDoubleArray(numbers: seq<real>, count: uint8) returns (a: Item)
    requires count <= |numbers|
    ensures fresh(a) && !a.isRef && a.name == None && a.value == Zero
    ensures forall c :: c in a.children ==> fresh(c)
    ensures BuiltChain(a, Float, FloatValues(numbers[..count]))
  {
    a := CreateFloatArray(numbers, count);
  }

  /** `createStringArray` (aJSON.cpp:1118-1133): an array of `count`
      String nodes, each holding a copy of its string. */
  method CreateStringArray(strings: seq<bytes>, count: uint8) returns (a: Item)
    requires count <= |strings|
    ensures fresh(a) && !a.isRef && a.name == None && a.value == Zero
    ensures forall c :: c in a.children ==> fresh(c)
    ensures BuiltChain(a, String, StringValues(strings[..count]))
  {
    a := CreateArray();
    for i := 0 to count
      invariant fresh(a) && a.kind == Array && !a.isRef && a.name == None && a.value == Zero
      invariant forall c :: c in a.children ==> fresh(c)
      invariant BuiltChain(a, String, StringValues(strings[..i]))
    {
      var n := CreateString(strings[i]);
      a.children := a.children + [n];
    }
  }
}
