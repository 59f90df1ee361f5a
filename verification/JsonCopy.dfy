/**
 * The graph-safe copy of backend/src/ai_employee/application/commands.py: `_copy_standard_json` walks
 * a finite object graph with the set of containers on its path, and the serialisation that follows.
 * The recursion of `_validate_json_value` in backend/src/ai_employee/domain/tasks.py has this shape.
 */
module JsonCopy {
  import opened Graphs
  import opened JsonText
  import opened Prelude
  import Utf8

  type Id = nat

  /** A Python value: a scalar, a reference to a container, or anything else. */
  datatype Value =
    | Nothing
    | Flag(flag: bool)
    | Whole(number: int)
    | Real(token: Text)
    | Chars(text: Text)
    | Ref(id: Id)
    | Other

  datatype Key = TextKey(text: Text) | OtherKey

  datatype Container = ListOf(items: seq<Value>) | MapOf(entries: seq<(Key, Value)>)

  type Heap = map<Id, Container>

  datatype Rejected = Rejected

  ghost predicate KeysDiffer(entries: seq<(Key, Value)>) {
    forall i, j :: 0 <= i < j < |entries| ==> entries[i].0 != entries[j].0
  }

  /** Mappings hold each key once. */
  ghost predicate ValidHeap(heap: Heap) {
    forall id :: id in heap && heap[id].MapOf? ==> KeysDiffer(heap[id].entries)
  }

  predicate LegalKey(k: Key) { k.TextKey? && IsScalarText(k.text) }

  function Children(heap: Heap, v: Value): seq<Value> {
    if !v.Ref? || v.id !in heap then []
    else match heap[v.id]
      case ListOf(items) => items
      case MapOf(entries) => seq(|entries|, i requires 0 <= i < |entries| => entries[i].1)
  }

  /** A non-finite float, a surrogate, a key that is no legal string, or a value of another type. */
  predicate Illegal(heap: Heap, v: Value) {
    match v
    case Real(token) => !IsFloatToken(token)
    case Chars(text) => !IsScalarText(text)
    case Ref(id) =>
      id !in heap || (heap[id].MapOf? && exists i :: 0 <= i < |heap[id].entries| && !LegalKey(heap[id].entries[i].0))
    case Other => true
    case _ => false
  }

  function ChildrenIn(heap: Heap): Value -> seq<Value> { v => Children(heap, v) }

  function IllegalIn(heap: Heap): Value -> bool { v => Illegal(heap, v) }

  /** `j` is the tree that `v` unfolds to, defined on the tree alone. */
  ghost predicate Unfolds(heap: Heap, v: Value, j: Json)
    decreases j
  {
    match j
    case Null => v == Nothing
    case Bool(flag) => v == Flag(flag)
    case Int(number) => v == Whole(number)
    case Float(token) => v == Real(token)
    case Str(text) => v == Chars(text)
    case Arr(items) =>
      && v.Ref? && v.id in heap && heap[v.id].ListOf? && |heap[v.id].items| == |items|
      && forall i :: 0 <= i < |items| ==> Unfolds(heap, heap[v.id].items[i], items[i])
    case Obj(entries) =>
      && v.Ref? && v.id in heap && heap[v.id].MapOf? && |heap[v.id].entries| == |entries|
      && forall i :: 0 <= i < |entries| ==> UnfoldsEntry(heap, heap[v.id].entries[i], entries[i])
  }

  ghost predicate UnfoldsEntry(heap: Heap, kv: (Key, Value), e: Entry)
    decreases e
  {
    kv.0 == TextKey(e.key) && Unfolds(heap, kv.1, e.value)
  }

  /** Every string and key of the tree can be encoded. */
  ghost predicate ScalarTree(j: Json) {
    match j
    case Str(text) => IsScalarText(text)
    case Arr(items) => forall i :: 0 <= i < |items| ==> ScalarTree(items[i])
    case Obj(entries) => forall i :: 0 <= i < |entries| ==> IsScalarText(entries[i].key) && ScalarTree(entries[i].value)
    case _ => true
  }

  ghost predicate IsCopy(heap: Heap, v: Value, j: Json) { Unfolds(heap, v, j) && WellFormed(j) && ScalarTree(j) }

  /** A graph value unfolds to at most one tree, so the copy is determined by the graph. */
  lemma {:induction false} UnfoldingIsUnique(heap: Heap, v: Value, j: Json, k: Json)
    requires Unfolds(heap, v, j) && Unfolds(heap, v, k)
    ensures j == k
    decreases j
  {
    match j
    case Arr(items) =>
      forall i | 0 <= i < |items|
        ensures items[i] == k.items[i]
      {
        UnfoldingIsUnique(heap, heap[v.id].items[i], items[i], k.items[i]);
      }
      assert items == k.items;
    case Obj(entries) =>
      forall i | 0 <= i < |entries|
        ensures entries[i] == k.entries[i]
      {
        assert UnfoldsEntry(heap, heap[v.id].entries[i], entries[i]);
        assert UnfoldsEntry(heap, heap[v.id].entries[i], k.entries[i]);
        UnfoldingIsUnique(heap, heap[v.id].entries[i].1, entries[i].value, k.entries[i].value);
      }
      assert entries == k.entries;
    case _ =>
  }

  function PathOf(active: set<Id>): set<Value> { set id | id in active :: Ref(id) }

  lemma PathGrows(active: set<Id>, id: Id)
    ensures PathOf(active + {id}) == PathOf(active) + {Ref(id)}
    ensures Ref(id) in PathOf(active) <==> id in active
  {
  }

  class Copier {
    /** `active_container_ids`: the containers on the current path. */
    var active: set<Id>

    constructor ()
      ensures active == {}
    {
      active := {};
    }

    /**
     * `_copy_standard_json`: it fails exactly when some walk from the value ends illegally or in a
     * container that is its own ancestor, yields the unfolded tree, and always restores the path.
     */
    method Copy(heap: Heap, v: Value) returns (r: Result<Json, Rejected>)
      requires ValidHeap(heap) && active <= heap.Keys
      modifies this
      ensures active == old(active)
      ensures r.Err? <==> Stuck(ChildrenIn(heap), IllegalIn(heap), PathOf(active), v)
      ensures r.Ok? ==> IsCopy(heap, v, r.value)
      decreases |heap.Keys - active|, 1
    {
      StuckStep(ChildrenIn(heap), IllegalIn(heap), PathOf(active), v);
      if !v.Ref? {
        ScalarIsCopied(heap, v, PathOf(active));
        return CopyScalar(v);
      }
      hide Stuck, IsCopy, CopiedEntries, EntryFails, KeysDiffer, PathOf;
      var id := v.id;
      PathGrows(active, id);
      if id !in heap || id in active {
        return Err(Rejected);
      }
      ghost var before := active;
      SmallerSet(heap.Keys - (active + {id}), heap.Keys - active);
      active := active + {id};
      match heap[id] {
        case ListOf(items) =>
          var copied := CopyItems(heap, items);
          if copied.Ok? {
            ListIsCopied(heap, id, copied.value);
            r := Ok(Arr(copied.value));
          } else {
            r := Err(Rejected);
          }
        case MapOf(entries) =>
          MappingFails(heap, id, PathOf(active));
          var copied := CopyEntries(heap, entries);
          if copied.Ok? {
            MappingIsCopied(heap, id, copied.value);
            r := Ok(Obj(copied.value));
          } else {
            r := Err(Rejected);
          }
      }
      active := active - {id};
      assert active == before;
    }

    method CopyItems(heap: Heap, items: seq<Value>) returns (r: Result<seq<Json>, Rejected>)
      requires ValidHeap(heap) && active <= heap.Keys
      modifies this
      ensures active == old(active)
      ensures r.Err? <==> exists d :: d in items && Stuck(ChildrenIn(heap), IllegalIn(heap), PathOf(active), d)
      ensures r.Ok? ==> |r.value| == |items| && forall i :: 0 <= i < |items| ==> IsCopy(heap, items[i], r.value[i])
      decreases |heap.Keys - active|, 2
    {
      hide Stuck, IsCopy, ValidHeap;
      var copied := [];
      for i := 0 to |items|
        invariant active == old(active) && |copied| == i
        invariant forall j :: 0 <= j < i ==> IsCopy(heap, items[j], copied[j])
        invariant forall j :: 0 <= j < i ==> !Stuck(ChildrenIn(heap), IllegalIn(heap), PathOf(active), items[j])
      {
        var child := Copy(heap, items[i]);
        if child.Err? {
          return Err(Rejected);
        }
        copied := copied + [child.value];
      }
      r := Ok(copied);
    }

    method CopyEntries(heap: Heap, entries: seq<(Key, Value)>) returns (r: Result<seq<Entry>, Rejected>)
      requires ValidHeap(heap) && active <= heap.Keys && KeysDiffer(entries)
      modifies this
      ensures active == old(active)
      ensures r.Err? <==> exists i :: 0 <= i < |entries| && EntryFails(heap, PathOf(active), entries[i])
      ensures r.Ok? ==> CopiedEntries(heap, entries, r.value)
      decreases |heap.Keys - active|, 2
    {
      hide Stuck, IsCopy, ValidHeap, Put, IsScalarText;
      var copied: seq<Entry> := [];
      for i := 0 to |entries|
        invariant active == old(active) && CopiedEntries(heap, entries[..i], copied)
        invariant forall j :: 0 <= j < i ==> !EntryFails(heap, PathOf(active), entries[j])
      {
        var (key, child) := entries[i];
        if !LegalKey(key) {
          return Err(Rejected);
        }
        var value := Copy(heap, child);
        if value.Err? {
          return Err(Rejected);
        }
        OneMoreEntry(heap, entries, i, copied, Entry(key.text, value.value));
        copied := Put(copied, Entry(key.text, value.value));
      }
      assert entries[..|entries|] == entries;
      r := Ok(copied);
    }
  }

  /** The scalar branches, before any container is looked at. */
  function CopyScalar(v: Value): Result<Json, Rejected> {
    match v
    case Nothing => Ok(Null)
    case Flag(flag) => Ok(Bool(flag))
    case Whole(number) => Ok(Int(number))
    case Chars(text) => if IsScalarText(text) then Ok(Str(text)) else Err(Rejected)
    case Real(token) => if IsFloatToken(token) then Ok(Float(token)) else Err(Rejected)
    case _ => Err(Rejected)
  }

  lemma ScalarIsCopied(heap: Heap, v: Value, path: set<Value>)
    requires !v.Ref? && forall x :: x in path ==> x.Ref?
    ensures CopyScalar(v).Err? <==> Stuck(ChildrenIn(heap), IllegalIn(heap), path, v)
    ensures CopyScalar(v).Ok? ==> IsCopy(heap, v, CopyScalar(v).value)
  {
    StuckStep(ChildrenIn(heap), IllegalIn(heap), path, v);
    hide Stuck;
  }

  lemma ListIsCopied(heap: Heap, id: Id, copied: seq<Json>)
    requires id in heap && heap[id].ListOf? && |copied| == |heap[id].items|
    requires forall i :: 0 <= i < |copied| ==> IsCopy(heap, heap[id].items[i], copied[i])
    ensures IsCopy(heap, Ref(id), Arr(copied))
  {
    assert forall i :: 0 <= i < |copied| ==> IsCopy(heap, heap[id].items[i], copied[i]);
  }

  lemma MappingIsCopied(heap: Heap, id: Id, copied: seq<Entry>)
    requires id in heap && heap[id].MapOf? && CopiedEntries(heap, heap[id].entries, copied)
    ensures IsCopy(heap, Ref(id), Obj(copied))
  {
    forall i | 0 <= i < |copied|
      ensures UnfoldsEntry(heap, heap[id].entries[i], copied[i])
      ensures WellFormed(copied[i].value) && ScalarTree(copied[i].value)
    {
      assert IsCopy(heap, heap[id].entries[i].1, copied[i].value);
    }
  }

  ghost predicate EntryFails(heap: Heap, path: set<Value>, kv: (Key, Value)) {
    !LegalKey(kv.0) || Stuck(ChildrenIn(heap), IllegalIn(heap), path, kv.1)
  }

  ghost predicate CopiedEntries(heap: Heap, entries: seq<(Key, Value)>, copied: seq<Entry>) {
    && |copied| == |entries| && DistinctKeys(copied)
    && forall i :: 0 <= i < |entries| ==>
      entries[i].0 == TextKey(copied[i].key) && IsScalarText(copied[i].key) &&
        IsCopy(heap, entries[i].1, copied[i].value)
  }

  lemma OneMoreEntry(heap: Heap, entries: seq<(Key, Value)>, i: nat, copied: seq<Entry>, e: Entry)
    requires i < |entries| && KeysDiffer(entries) && CopiedEntries(heap, entries[..i], copied)
    requires entries[i].0 == TextKey(e.key) && IsScalarText(e.key) && IsCopy(heap, entries[i].1, e.value)
    ensures CopiedEntries(heap, entries[..i + 1], Put(copied, e))
  {
    hide IsCopy, IsScalarText;
    forall j | 0 <= j < |copied|
      ensures copied[j].key != e.key
    {
      assert entries[..i][j].0 == TextKey(copied[j].key);
    }
    PutOfFresh(copied, e);
    assert entries[..i + 1] == entries[..i] + [entries[i]];
  }

  /** What makes a mapping fail, said of its entries. */
  lemma MappingFails(heap: Heap, id: Id, path: set<Value>)
    requires id in heap && heap[id].MapOf?
    ensures Illegal(heap, Ref(id)) || (exists d ::
      d in Children(heap, Ref(id)) && Stuck(ChildrenIn(heap), IllegalIn(heap), path, d))
      <==> exists i :: 0 <= i < |heap[id].entries| && EntryFails(heap, path, heap[id].entries[i])
  {
    hide Stuck, IsScalarText;
    var entries, children := heap[id].entries, Children(heap, Ref(id));
    assert |children| == |entries| && forall i :: 0 <= i < |entries| ==> children[i] == entries[i].1;
    if d :| d in children && Stuck(ChildrenIn(heap), IllegalIn(heap), path, d) {
      var i :| 0 <= i < |children| && children[i] == d;
      assert EntryFails(heap, path, entries[i]);
    }
    if i :| 0 <= i < |entries| && EntryFails(heap, path, entries[i]) {
      assert children[i] in children;
    }
  }

  // ---------------------------------------------------------------- the serialisation step

  lemma {:induction false} EscapesAreScalar(s: Text)
    requires IsScalarText(s)
    ensures IsScalarText(EscapeAll(s))
  {
    if s != [] {
      EscapesAreScalar(s[1..]);
    }
  }

  /** A copied tree always encodes: its strings were checked, and nothing else can hold a surrogate. */
  lemma {:induction false} CopiesEncode(j: Json)
    requires WellFormed(j) && ScalarTree(j)
    ensures IsScalarText(Write(j))
    decreases j, 1, 0
  {
    match j
    case Int(n) =>
    case Float(token) => assert forall i :: 0 <= i < |token| ==> NumberChar(token[i]);
    case Str(text) => EscapesAreScalar(text);
    case Arr(items) => ItemsEncode(items, j);
    case Obj(entries) => EntriesEncode(entries, j);
    case _ =>
  }

  lemma {:induction false} ItemsEncode(items: seq<Json>, parent: Json)
    requires forall i :: 0 <= i < |items| ==> WellFormed(items[i]) && ScalarTree(items[i]) && items[i] < parent
    ensures IsScalarText(WriteItems(items))
    decreases parent, 0, |items|
  {
    hide WellFormed, ScalarTree, Write;
    if items != [] {
      CopiesEncode(items[0]);
      ItemsEncode(items[1..], parent);
    }
  }

  lemma {:induction false} EntriesEncode(entries: seq<Entry>, parent: Json)
    requires forall i :: 0 <= i < |entries| ==>
      WellFormed(entries[i].value) && ScalarTree(entries[i].value) && IsScalarText(entries[i].key) &&
        entries[i].value < parent
    ensures IsScalarText(WriteEntries(entries))
    decreases parent, 0, |entries|
  {
    hide WellFormed, ScalarTree, Write, EscapeAll;
    if entries != [] {
      EscapesAreScalar(entries[0].key);
      CopiesEncode(entries[0].value);
      EntriesEncode(entries[1..], parent);
    }
  }

  /** Bytes from which UTF-8 decoding and reading give back the unfolded tree. */
  ghost predicate Carries(heap: Heap, v: Value, bytes: Bytes) {
    exists j ::
      IsCopy(heap, v, j) && Utf8.Decode(bytes).Some? && Read(Utf8.Decode(bytes).value) == Some(j)
  }

  /**
   * Copying and serialising as the command validation does: it fails exactly when an illegal value or
   * a container that contains itself can be reached, and the bytes carry the whole tree.
   */
  method EncodeCommand(heap: Heap, v: Value) returns (r: Result<Bytes, Rejected>)
    requires ValidHeap(heap)
    ensures r.Err? <==> exists x ::
      (x == v || Reaches(ChildrenIn(heap), v, x)) && (Illegal(heap, x) || Reaches(ChildrenIn(heap), x, x))
    ensures r.Ok? ==> Carries(heap, v, r.value)
  {
    StuckIffCycle(ChildrenIn(heap), IllegalIn(heap), v);
    assert forall x :: IllegalIn(heap)(x) == Illegal(heap, x);
    assert PathOf({}) == {};
    hide Stuck, Reaches, ValidHeap;
    var copier := new Copier();
    var copied := copier.Copy(heap, v);
    if copied.Err? {
      return Err(Rejected);
    }
    CopiesEncode(copied.value);
    var text := Write(copied.value);
    CopyIsCarried(heap, v, copied.value);
    r := Ok(Utf8.Encode(text));
  }

  lemma CopyIsCarried(heap: Heap, v: Value, j: Json)
    requires IsCopy(heap, v, j) && IsScalarText(Write(j))
    ensures Carries(heap, v, Utf8.Encode(Write(j)))
  {
    Utf8.DecodeOfEncode(Write(j));
    ReadOfWrite(j, []);
    assert Write(j) + [] == Write(j);
  }
}
