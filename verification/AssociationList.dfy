/** The association lists of linkedlist.c, as values: what each operation does to count and contents. */
module AssociationList {
  import opened Words

  /** AsWritten is the text: sll_pop lowers count through sll_delete and then once more.
      Repaired drops the second decrement, so that count is the length of the list. */
  datatype Variant = AsWritten | Repaired

  datatype KeyValue = KeyValue(key: Ull, value: Ull)

  /** `items` lists the nodes from the head. */
  datatype SList = SList(count: Ull, items: seq<KeyValue>)

  const EMPTY_LIST: SList := SList(0, [])

  /** Where sll_find stops: the first node with the key, or the end of the list. */
  function IndexOf(items: seq<KeyValue>, key: Ull): (i: nat)
    ensures i <= |items|
    ensures forall j :: 0 <= j < i ==> items[j].key != key
    ensures i < |items| ==> items[i].key == key
  {
    if items == [] || items[0].key == key then 0 else IndexOf(items[1..], key) + 1
  }

  function Assoc(items: seq<KeyValue>, key: Ull): Option<Ull> {
    var i := IndexOf(items, key);
    if i < |items| then Some(items[i].value) else None
  }

  ghost predicate Distinct(items: seq<KeyValue>) {
    forall i, j :: 0 <= i < j < |items| ==> items[i].key != items[j].key
  }

  /** sll_put_key_value: a new head. */
  function Push(l: SList, kv: KeyValue): SList {
    SList(Inc(l.count), [kv] + l.items)
  }

  /** sll_add */
  function AddKey(l: SList, key: Ull): SList {
    var i := IndexOf(l.items, key);
    if i < |l.items| then
      SList(l.count, l.items[i := KeyValue(key, Inc(l.items[i].value))])
    else
      Push(l, KeyValue(key, 1))
  }

  /** sll_remove */
  function RemoveKey(l: SList, key: Ull): SList {
    var i := IndexOf(l.items, key);
    if i == |l.items| then l
    else
      var value := Dec(l.items[i].value);
      if value == 0 then
        SList(Dec(l.count), l.items[..i] + l.items[i + 1..])
      else
        SList(l.count, l.items[i := KeyValue(key, value)])
  }

  /** The list that a successful sll_pop leaves. */
  function Popped(v: Variant, l: SList): SList
    requires l.items != []
  {
    var count := Dec(l.count);
    SList(if v.AsWritten? then Dec(count) else count, l.items[1..])
  }

  /** The list after popping until sll_pop fails. */
  function Drained(v: Variant, l: SList): (r: SList)
    ensures r.items == []
    decreases |l.items|
  {
    if l.items == [] then l else Drained(v, Popped(v, l))
  }

  /** Pushing entries in turn, so the last one ends at the head. */
  function PushAll(l: SList, items: seq<KeyValue>): SList
    decreases |items|
  {
    if items == [] then l else PushAll(Push(l, items[0]), items[1..])
  }

  /** What one reference more or less means for a key's value. */
  function Bumped(o: Option<Ull>): Option<Ull> {
    Some(if o.Some? then Inc(o.value) else 1)
  }

  function Dropped(o: Option<Ull>): Option<Ull> {
    if o.None? || Dec(o.value) == 0 then None else Some(Dec(o.value))
  }

  lemma AssocIs(items: seq<KeyValue>, i: nat)
    requires Distinct(items) && i < |items|
    ensures IndexOf(items, items[i].key) == i
    ensures Assoc(items, items[i].key) == Some(items[i].value)
  {
  }

  /** sll_add refines counting one more occurrence of the key. */
  lemma AddKeyRefines(l: SList, key: Ull)
    requires Distinct(l.items)
    ensures Distinct(AddKey(l, key).items)
    ensures forall k: Ull :: Assoc(AddKey(l, key).items, k)
                             == if k == key then Bumped(Assoc(l.items, k)) else Assoc(l.items, k)
    ensures AddKey(l, key).count == if Assoc(l.items, key).None? then Inc(l.count) else l.count
    ensures |AddKey(l, key).items| == |l.items| + if Assoc(l.items, key).None? then 1 else 0
  {
    forall k: Ull
      ensures Assoc(AddKey(l, key).items, k)
              == if k == key then Bumped(Assoc(l.items, k)) else Assoc(l.items, k)
    {
      if Assoc(l.items, key).None? {
        AssocPush(l, KeyValue(key, 1), k);
      } else {
        AssocUpdate(l.items, IndexOf(l.items, key), Inc(Assoc(l.items, key).value), k);
      }
    }
  }

  /** The nodes after sll_add: a stored key keeps its place, and so do all others; a new key is at the head. */
  lemma AddKeyOrder(l: SList, key: Ull, i: nat)
    requires i <= |l.items| && (forall j :: 0 <= j < i ==> l.items[j].key != key)
    requires i < |l.items| ==> l.items[i].key == key
    ensures i == |l.items| ==> AddKey(l, key).items == [KeyValue(key, 1)] + l.items
    ensures i < |l.items| ==>
              && |AddKey(l, key).items| == |l.items|
              && forall j :: 0 <= j < |l.items| ==>
                   AddKey(l, key).items[j]
                   == if j == i then KeyValue(key, (l.items[i].value + 1) % WORD) else l.items[j]
  {
    FirstIs(l.items, key, i);
  }

  /** The first node with a key is the one that sll_find stops at. */
  lemma FirstIs(items: seq<KeyValue>, key: Ull, i: nat)
    requires i <= |items| && (forall j :: 0 <= j < i ==> items[j].key != key)
    requires i < |items| ==> items[i].key == key
    ensures IndexOf(items, key) == i
  {
  }

  lemma AssocPush(l: SList, kv: KeyValue, k: Ull)
    requires Assoc(l.items, kv.key).None?
    ensures Assoc(Push(l, kv).items, k) == if k == kv.key then Some(kv.value) else Assoc(l.items, k)
    ensures Distinct(l.items) ==> Distinct(Push(l, kv).items)
  {
    assert ([kv] + l.items)[1..] == l.items;
  }

  lemma AssocUpdate(items: seq<KeyValue>, i: nat, value: Ull, k: Ull)
    requires Distinct(items) && i < |items|
    ensures var items' := items[i := KeyValue(items[i].key, value)];
            Distinct(items') && Assoc(items', k) == if k == items[i].key then Some(value) else Assoc(items, k)
  {
    var items' := items[i := KeyValue(items[i].key, value)];
    assert forall j :: 0 <= j < |items| ==> items'[j].key == items[j].key;
    var j := IndexOf(items, k);
    if j < |items| {
      AssocIs(items, i);
      AssocIs(items', j);
    }
  }

  /** sll_remove refines counting one occurrence less, and does nothing to other keys. */
  lemma RemoveKeyRefines(l: SList, key: Ull)
    requires Distinct(l.items)
    ensures Distinct(RemoveKey(l, key).items)
    ensures forall k: Ull :: Assoc(RemoveKey(l, key).items, k)
                             == if k == key then Dropped(Assoc(l.items, k)) else Assoc(l.items, k)
    ensures var gone := Assoc(l.items, key).Some? && Dropped(Assoc(l.items, key)).None?;
            && RemoveKey(l, key).count == (if gone then Dec(l.count) else l.count)
            && |RemoveKey(l, key).items| == |l.items| - (if gone then 1 else 0)
  {
    var i := IndexOf(l.items, key);
    if i < |l.items| {
      var value := Dec(l.items[i].value);
      AssocWithout(l.items, i, key);
      AssocUpdate(l.items, i, value, key);
      forall k: Ull
        ensures Assoc(RemoveKey(l, key).items, k) == if k == key then Dropped(Assoc(l.items, k)) else Assoc(l.items, k)
      {
        AssocWithout(l.items, i, k);
        AssocUpdate(l.items, i, value, k);
      }
    }
  }

  /** The nodes after sll_remove: the one whose value reaches zero is gone, and all others keep their order. */
  lemma RemoveKeyOrder(l: SList, key: Ull, i: nat)
    requires i <= |l.items| && (forall j :: 0 <= j < i ==> l.items[j].key != key)
    requires i < |l.items| ==> l.items[i].key == key
    ensures i == |l.items| ==> RemoveKey(l, key) == l
    ensures i < |l.items| ==>
              var items, value := RemoveKey(l, key).items, (l.items[i].value - 1) % WORD;
              if value == 0 then
                && |items| == |l.items| - 1
                && forall j :: 0 <= j < |items| ==> items[j] == l.items[if j < i then j else j + 1]
              else
                && |items| == |l.items|
                && forall j :: 0 <= j < |items| ==>
                     items[j] == if j == i then KeyValue(key, value) else l.items[j]
  {
    FirstIs(l.items, key, i);
  }

  lemma AssocWithout(items: seq<KeyValue>, i: nat, k: Ull)
    requires Distinct(items) && i < |items|
    ensures var items' := items[..i] + items[i + 1..];
            Distinct(items') && Assoc(items', k) == if k == items[i].key then None else Assoc(items, k)
  {
    var items' := items[..i] + items[i + 1..];
    assert forall j :: 0 <= j < |items'| ==> items'[j] == items[if j < i then j else j + 1];
    var j := IndexOf(items, k);
    if j < |items| && j != i {
      AssocIs(items', if j < i then j else j - 1);
    }
  }

  /** Keys with values, in either order of reading. */
  lemma AssocMember(items: seq<KeyValue>, k: Ull, x: Ull)
    requires Distinct(items)
    ensures Assoc(items, k) == Some(x) <==> KeyValue(k, x) in items
  {
    if KeyValue(k, x) in items {
      var i :| 0 <= i < |items| && items[i] == KeyValue(k, x);
      AssocIs(items, i);
    }
  }

  /** Pushing entries with new, different keys one by one: nothing is lost, nothing appears. */
  lemma {:induction false} PushAllContents(l: SList, items: seq<KeyValue>)
    requires Distinct(l.items) && Distinct(items)
    requires forall e, d :: e in l.items && d in items ==> e.key != d.key
    ensures var r := PushAll(l, items);
            && Distinct(r.items)
            && (forall e :: e in r.items <==> e in l.items || e in items)
            && |r.items| == |l.items| + |items|
            && r.count == Wrap(l.count + |items|)
    decreases |items|
  {
    WrapStep(l.count);
    if items != [] {
      assert items[0] in items;
      var l' := Push(l, items[0]);
      forall e | e in items ensures e == items[0] || e in items[1..] {
      }
      PushAllContents(l', items[1..]);
      WrapSum(l.count + 1, |items| - 1);
    }
  }

  /** The list that a move leaves, node by node: the last entry moved is the head, the old list the end. */
  lemma {:induction false} PushAllOrder(l: SList, items: seq<KeyValue>)
    ensures var r := PushAll(l, items).items;
            && |r| == |items| + |l.items|
            && (forall j :: 0 <= j < |items| ==> r[|items| - 1 - j] == items[j])
            && (forall j :: 0 <= j < |l.items| ==> r[|items| + j] == l.items[j])
    decreases |items|
  {
    if items != [] {
      var l' := Push(l, items[0]);
      PushAllOrder(l', items[1..]);
      var r, n := PushAll(l, items).items, |items|;
      forall j | 0 <= j < n ensures r[n - 1 - j] == items[j] {
        if j > 0 {
          assert r[n - 1 - 1 - (j - 1)] == items[1..][j - 1];
        } else {
          assert r[n - 1 + 0] == l'.items[0];
        }
      }
      forall j | 0 <= j < |l.items| ensures r[n + j] == l.items[j] {
        assert r[n - 1 + (j + 1)] == l'.items[j + 1];
      }
    }
  }

  /** Draining takes one off count per node when repaired, two as written. */
  lemma {:induction false} DrainedCount(v: Variant, l: SList)
    ensures Drained(v, l).count == Wrap(l.count - if v.AsWritten? then 2 * |l.items| else |l.items|)
    decreases |l.items|
  {
    WrapStep(l.count);
    if l.items != [] {
      DrainedCount(v, Popped(v, l));
      WrapStep(l.count - 1);
      WrapSum(l.count - (if v.AsWritten? then 2 else 1), -if v.AsWritten? then 2 * (|l.items| - 1) else |l.items| - 1);
    }
  }

  // ------------------------------------------------------------------
  // Whole runs over one list

  datatype ListOp = Add(key: Ull) | Remove(key: Ull) | PutEntry(entry: KeyValue) | Pop

  function ListStep(v: Variant, l: SList, op: ListOp): SList {
    match op
    case Add(key) => AddKey(l, key)
    case Remove(key) => RemoveKey(l, key)
    case PutEntry(kv) => Push(l, kv)
    case Pop => if l.items == [] then l else Popped(v, l)
  }

  function ListRun(v: Variant, ops: seq<ListOp>): SList {
    if ops == [] then EMPTY_LIST else ListStep(v, ListRun(v, ops[..|ops| - 1]), ops[|ops| - 1])
  }

  /** How many pops of the run found a node. */
  function Pops(v: Variant, ops: seq<ListOp>): nat {
    if ops == [] then 0
    else
      var before := ops[..|ops| - 1];
      Pops(v, before) + if ops[|ops| - 1].Pop? && ListRun(v, before).items != [] then 1 else 0
  }

  /** Every operation moves count and length together, except that a pop takes two as written. */
  lemma ListStepCount(v: Variant, l: SList, op: ListOp)
    ensures var l' := ListStep(v, l, op);
            || (l'.count == l.count && |l'.items| == |l.items| && (op.Pop? ==> l.items == []))
            || (l'.count == Inc(l.count) && |l'.items| == |l.items| + 1 && !op.Pop?)
            || (l'.count == Dec(l.count) && |l'.items| == |l.items| - 1 && (op.Pop? ==> v.Repaired?))
            || (l'.count == Dec(Dec(l.count)) && |l'.items| == |l.items| - 1 && op.Pop? && v.AsWritten?)
  {
  }

  /** After any run, count is the length as repaired; as written it is the length minus the pops so far. */
  lemma {:induction false} CountAfterRun(v: Variant, ops: seq<ListOp>)
    ensures var l := ListRun(v, ops);
            l.count == Wrap(|l.items| - if v.AsWritten? then Pops(v, ops) else 0)
  {
    if ops != [] {
      var before := ops[..|ops| - 1];
      CountAfterRun(v, before);
      var l := ListRun(v, before);
      ListStepCount(v, l, ops[|ops| - 1]);
      WrapNeighbours(|l.items| - if v.AsWritten? then Pops(v, before) else 0);
    } else {
      WrapStep(0);
    }
  }
}
