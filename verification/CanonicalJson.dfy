/**
 * Canonical JSON for approval hashing, backend/src/ai_employee/domain/tasks.py: sorting the keys of
 * every object before writing identifies exactly the trees that differ in key order alone, and the
 * stored text gives the approved tree back.
 */
module CanonicalJson {
  import opened JsonText
  import opened Prelude
  import opened Sorting
  import Utf8

  // ---------------------------------------------------------------- the order of keys

  /** Comparison of `str` by code points. */
  predicate TextLeq(a: Text, b: Text) {
    a == [] || (b != [] && (a[0] < b[0] || (a[0] == b[0] && TextLeq(a[1..], b[1..]))))
  }

  predicate EntryLeq(x: Entry, y: Entry) { TextLeq(x.key, y.key) }

  function KeyOf(e: Entry): Text { e.key }

  lemma {:induction false} TextLeqIsTotal(a: Text, b: Text)
    ensures TextLeq(a, b) || TextLeq(b, a)
    ensures TextLeq(a, b) && TextLeq(b, a) ==> a == b
  {
    if a != [] && b != [] {
      TextLeqIsTotal(a[1..], b[1..]);
      assert a == [a[0]] + a[1..] && b == [b[0]] + b[1..];
    }
  }

  lemma {:induction false} TextLeqIsTransitive(a: Text, b: Text, c: Text)
    requires TextLeq(a, b) && TextLeq(b, c)
    ensures TextLeq(a, c)
  {
    if a != [] && a[0] == b[0] == c[0] {
      TextLeqIsTransitive(a[1..], b[1..], c[1..]);
    }
  }

  lemma EntryLeqIsPreorder()
    ensures TotalPreorder(EntryLeq)
  {
    forall x, y
      ensures EntryLeq(x, y) || EntryLeq(y, x)
    {
      TextLeqIsTotal(x.key, y.key);
    }
    forall x, y, z | EntryLeq(x, y) && EntryLeq(y, z)
      ensures EntryLeq(x, z)
    {
      TextLeqIsTransitive(x.key, y.key, z.key);
    }
  }

  // ---------------------------------------------------------------- canonical text

  /** What `sort_keys` does at every level. */
  function Sorted(j: Json): Json {
    match j
    case Arr(items) => Arr(seq(|items|, i requires 0 <= i < |items| => Sorted(items[i])))
    case Obj(entries) =>
      Obj(SortBy(EntryLeq,
                 seq(|entries|, i requires 0 <= i < |entries| => Entry(entries[i].key, Sorted(entries[i].value)))))
    case _ => j
  }

  /** `_canonicalize_payload` on the tree a valid payload unfolds to. */
  function Canonical(j: Json): Text { Write(Sorted(j)) }

  /** After a common beginning `a` ends or has the smaller character. */
  ghost predicate ComesFirst(a: Text, b: Text) {
    exists k: nat :: k <= |a| && k <= |b| && a[..k] == b[..k] && (k == |a| || (k < |b| && a[k] < b[k]))
  }

  lemma {:induction false} TextLeqComesFirst(a: Text, b: Text)
    requires TextLeq(a, b)
    ensures ComesFirst(a, b)
  {
    if a == [] || a[0] != b[0] {
      assert a[..0] == b[..0];
    } else {
      TextLeqComesFirst(a[1..], b[1..]);
      var k: nat :| k <= |a[1..]| && k <= |b[1..]| && a[1..][..k] == b[1..][..k]
        && (k == |a[1..]| || (k < |b[1..]| && a[1..][k] < b[1..][k]));
      assert a[..k + 1] == [a[0]] + a[1..][..k] && b[..k + 1] == [b[0]] + b[1..][..k];
      assert k < |a[1..]| ==> a[1..][k] == a[k + 1];
      assert k < |b[1..]| ==> b[1..][k] == b[k + 1];
    }
  }

  /** The keys of a canonical object ascend. */
  lemma SortedKeysAscend(entries: seq<Entry>, i: nat, j: nat)
    requires i < j < |Sorted(Obj(entries)).entries|
    ensures var sorted := Sorted(Obj(entries)).entries; ComesFirst(sorted[i].key, sorted[j].key)
  {
    var mapped := seq(|entries|, n requires 0 <= n < |entries| => Entry(entries[n].key, Sorted(entries[n].value)));
    EntryLeqIsPreorder();
    SortIsSortedPermutation(EntryLeq, mapped);
    var sorted := Sorted(Obj(entries)).entries;
    assert EntryLeq(sorted[i], sorted[j]);
    TextLeqComesFirst(sorted[i].key, sorted[j].key);
  }

  /** Equal up to the order of object keys. */
  ghost predicate Equivalent(a: Json, b: Json)
    decreases a
  {
    match a
    case Arr(x) => b.Arr? && |x| == |b.items| && forall i :: 0 <= i < |x| ==> Equivalent(x[i], b.items[i])
    case Obj(e) =>
      b.Obj? && |e| == |b.entries| && forall i :: 0 <= i < |e| ==> HasEntry(e[i], b.entries)
    case _ => a == b
  }

  ghost predicate HasEntry(e: Entry, entries: seq<Entry>)
    decreases e
  {
    exists k :: 0 <= k < |entries| && entries[k].key == e.key && Equivalent(e.value, entries[k].value)
  }

  function SortedValues(entries: seq<Entry>): seq<Entry> {
    seq(|entries|, i requires 0 <= i < |entries| => Entry(entries[i].key, Sorted(entries[i].value)))
  }

  lemma SortedOfObject(entries: seq<Entry>)
    ensures Sorted(Obj(entries)) == Obj(SortBy(EntryLeq, SortedValues(entries)))
    ensures DistinctKeys(entries) ==> DistinctBy(KeyOf, SortedValues(entries))
  {
    var mapped := seq(|entries|, i requires 0 <= i < |entries| => Entry(entries[i].key, Sorted(entries[i].value)));
    assert mapped == SortedValues(entries);
  }

  /** Two key-sorted lists of distinct keys with the same entries are the same list. */
  lemma {:induction false} SortedListIsUnique(a: seq<Entry>, b: seq<Entry>)
    requires SortedBy(EntryLeq, a) && SortedBy(EntryLeq, b) && DistinctBy(KeyOf, a) && DistinctBy(KeyOf, b)
    requires forall x :: x in a <==> x in b
    ensures a == b
  {
    assert b == [] || b[0] in a;
    if a != [] {
      assert a[0] in b;
      var k :| 0 <= k < |b| && b[k] == a[0];
      var m :| 0 <= m < |a| && a[m] == b[0];
      assert k == 0 || KeyOf(b[0]) != KeyOf(b[k]);
      if k > 0 {
        assert EntryLeq(b[0], b[k]);
        assert m > 0 ==> EntryLeq(a[0], a[m]);
        TextLeqIsTotal(a[0].key, b[0].key);
      }
      assert a == [a[0]] + a[1..] && b == [b[0]] + b[1..];
      forall x
        ensures x in a[1..] <==> x in b[1..]
      {
        TailMembership(a, x);
        TailMembership(b, x);
      }
      SortedListIsUnique(a[1..], b[1..]);
    }
  }

  lemma TailMembership(s: seq<Entry>, x: Entry)
    requires s != [] && DistinctBy(KeyOf, s)
    ensures x in s[1..] <==> x in s && x != s[0]
  {
    if x in s[1..] {
      var i :| 0 <= i < |s[1..]| && s[1..][i] == x;
      assert s[i + 1] == x && KeyOf(s[0]) != KeyOf(s[i + 1]);
    }
    if x in s && x != s[0] {
      var i :| 0 <= i < |s| && s[i] == x;
      assert s[1..][i - 1] == x;
    }
  }

  function Elements(s: seq<Entry>): set<Entry> { set x | x in s }

  lemma {:induction false} ElementCount(s: seq<Entry>)
    requires DistinctBy(KeyOf, s)
    ensures |Elements(s)| == |s|
  {
    if s == [] {
      assert Elements(s) == {};
    } else {
      ElementCount(s[1..]);
      TailMembership(s, s[0]);
      assert s == [s[0]] + s[1..];
      assert Elements(s) == {s[0]} + Elements(s[1..]);
    }
  }

  /** Lists of distinct keys sort to the same list exactly when one holds all entries of the other. */
  lemma SortedAlike(m: seq<Entry>, n: seq<Entry>)
    requires DistinctBy(KeyOf, m) && DistinctBy(KeyOf, n)
    ensures SortBy(EntryLeq, m) == SortBy(EntryLeq, n) <==> |m| == |n| && forall i :: 0 <= i < |m| ==> m[i] in n
  {
    hide SortBy, EntryLeq;
    EntryLeqIsPreorder();
    SortIsSortedPermutation(EntryLeq, m);
    SortIsSortedPermutation(EntryLeq, n);
    if SortBy(EntryLeq, m) == SortBy(EntryLeq, n) {
      SameElements(m, n);
    }
    if |m| == |n| && forall i :: 0 <= i < |m| ==> m[i] in n {
      ElementCount(m);
      ElementCount(n);
      assert Elements(m) <= Elements(n);
      SubsetOfSameSize(Elements(m), Elements(n));
      SortKeepsDistinct(EntryLeq, KeyOf, m);
      SortKeepsDistinct(EntryLeq, KeyOf, n);
      SameElements(SortBy(EntryLeq, m), m);
      SameElements(SortBy(EntryLeq, n), n);
      assert forall x :: x in m <==> x in Elements(m);
      assert forall x :: x in n <==> x in Elements(n);
      SortedListIsUnique(SortBy(EntryLeq, m), SortBy(EntryLeq, n));
    }
  }

  lemma SubsetOfSameSize<T>(a: set<T>, b: set<T>)
    requires a <= b && |a| == |b|
    ensures a == b
  {
    assert |b - a| == 0;
  }

  /** Sorting keys at every level identifies exactly the trees that are equal up to key order. */
  lemma {:induction false} SortedIffEquivalent(a: Json, b: Json)
    requires WellFormed(a) && WellFormed(b)
    ensures Equivalent(a, b) <==> Sorted(a) == Sorted(b)
    decreases a
  {
    hide WellFormed;
    match a
    case Arr(x) =>
      if b.Arr? && |x| == |b.items| {
        ArraysAlike(x, b.items, a);
      } else {
        assert b.Arr? ==> |Sorted(b).items| == |b.items|;
      }
    case Obj(e) =>
      if b.Obj? {
        ObjectsAlike(e, b.entries, a);
      }
    case _ =>
  }

  lemma {:induction false} ArraysAlike(x: seq<Json>, y: seq<Json>, parent: Json)
    requires |x| == |y| && parent == Arr(x) && WellFormed(parent) && WellFormed(Arr(y))
    ensures (forall i :: 0 <= i < |x| ==> Equivalent(x[i], y[i])) <==> Sorted(Arr(x)) == Sorted(Arr(y))
    decreases parent, 0
  {
    forall i | 0 <= i < |x|
      ensures Equivalent(x[i], y[i]) <==> Sorted(x[i]) == Sorted(y[i])
    {
      SortedIffEquivalent(x[i], y[i]);
    }
    var p, q := Sorted(Arr(x)).items, Sorted(Arr(y)).items;
    assert |p| == |x| && |q| == |y|;
    assert forall i :: 0 <= i < |x| ==> p[i] == Sorted(x[i]) && q[i] == Sorted(y[i]);
    if forall i :: 0 <= i < |x| ==> Equivalent(x[i], y[i]) {
      assert p == q;
    }
  }

  lemma {:induction false} ObjectsAlike(e: seq<Entry>, f: seq<Entry>, parent: Json)
    requires parent == Obj(e) && WellFormed(parent) && WellFormed(Obj(f))
    ensures (|e| == |f| && forall i :: 0 <= i < |e| ==> HasEntry(e[i], f)) <==> Sorted(Obj(e)) == Sorted(Obj(f))
    decreases parent, 0
  {
    SortedOfObject(e);
    SortedOfObject(f);
    var m, n := SortedValues(e), SortedValues(f);
    SortedAlike(m, n);
    forall i | 0 <= i < |e|
      ensures HasEntry(e[i], f) <==> m[i] in n
    {
      forall k | 0 <= k < |f|
        ensures Equivalent(e[i].value, f[k].value) <==> m[i].value == n[k].value
      {
        SortedIffEquivalent(e[i].value, f[k].value);
      }
      if HasEntry(e[i], f) {
        var k :| 0 <= k < |f| && f[k].key == e[i].key && Equivalent(e[i].value, f[k].value);
        assert m[i] == n[k];
      }
      if m[i] in n {
        var k :| 0 <= k < |n| && n[k] == m[i];
        assert f[k].key == e[i].key;
      }
    }
  }

  /** Sorting keeps a value well formed, so its text can be read back. */
  lemma {:induction false} SortedIsWellFormed(j: Json)
    requires WellFormed(j)
    ensures WellFormed(Sorted(j))
    decreases j
  {
    match j
    case Arr(items) =>
      forall i | 0 <= i < |items|
        ensures WellFormed(Sorted(items[i]))
      {
        SortedIsWellFormed(items[i]);
      }
    case Obj(entries) =>
      forall i | 0 <= i < |entries|
        ensures WellFormed(Sorted(entries[i].value))
      {
        SortedIsWellFormed(entries[i].value);
      }
      SortedOfObject(entries);
      EntryLeqIsPreorder();
      var mapped := SortedValues(entries);
      SortKeepsDistinct(EntryLeq, KeyOf, mapped);
      SortIsSortedPermutation(EntryLeq, mapped);
      var sorted := SortBy(EntryLeq, mapped);
      SameElements(sorted, mapped);
      forall i | 0 <= i < |sorted|
        ensures WellFormed(sorted[i].value)
      {
        assert sorted[i] in mapped;
      }
      assert forall i, k :: 0 <= i < k < |sorted| ==> KeyOf(sorted[i]) != KeyOf(sorted[k]);
    case _ =>
  }

  lemma {:induction false} SortedIsEquivalent(j: Json)
    ensures Equivalent(Sorted(j), j)
    decreases j
  {
    match j
    case Arr(items) =>
      forall i | 0 <= i < |items|
        ensures Equivalent(Sorted(items[i]), items[i])
      {
        SortedIsEquivalent(items[i]);
      }
    case Obj(entries) =>
      SortedOfObject(entries);
      EntryLeqIsPreorder();
      var mapped := SortedValues(entries);
      var sorted := SortBy(EntryLeq, mapped);
      SortIsSortedPermutation(EntryLeq, mapped);
      SameElements(sorted, mapped);
      forall i | 0 <= i < |sorted|
        ensures HasEntry(sorted[i], entries)
      {
        assert sorted[i] in mapped;
        var k :| 0 <= k < |mapped| && mapped[k] == sorted[i];
        SortedIsEquivalent(entries[k].value);
      }
    case _ =>
  }

  // ---------------------------------------------------------------- the main results

  /** Reading a canonical text gives the tree back, up to key order. */
  lemma ReadOfCanonical(j: Json)
    requires WellFormed(j)
    ensures Read(Canonical(j)).Some? && Equivalent(Read(Canonical(j)).value, j)
  {
    SortedIsWellFormed(j);
    ReadOfWrite(Sorted(j), []);
    assert Write(Sorted(j)) + [] == Write(Sorted(j));
    SortedIsEquivalent(j);
  }

  lemma CanonicalIffEquivalent(a: Json, b: Json)
    requires WellFormed(a) && WellFormed(b)
    ensures Canonical(a) == Canonical(b) <==> Equivalent(a, b)
  {
    SortedIsWellFormed(a);
    SortedIsWellFormed(b);
    ReadOfWrite(Sorted(a), []);
    ReadOfWrite(Sorted(b), []);
    SortedIffEquivalent(a, b);
  }

  // ---------------------------------------------------------------- approval proposals

  const ACTION: Text := [97, 99, 116, 105, 111, 110]
  const PAYLOAD: Text := [112, 97, 121, 108, 111, 97, 100]

  datatype Rejected = Rejected

  /** A frozen proposal; `hashed` are the bytes given to SHA-256. */
  datatype Proposal = Proposal(action: Text, hashed: Bytes, canonicalPayload: Text)

  function Command(action: Text, payload: Json): Json {
    Obj([Entry(ACTION, Str(action)), Entry(PAYLOAD, payload)])
  }

  /** `ApprovalProposal.create`: the root must be an object, and the command must encode as UTF-8. */
  function Create(action: Text, payload: Json): Result<Proposal, Rejected> {
    if !payload.Obj? then Err(Rejected)
    else
      var command := Canonical(Command(action, payload));
      if !IsScalarText(command) then Err(Rejected)
      else Ok(Proposal(action, Utf8.Encode(command), Canonical(payload)))
  }

  lemma CommandsAlike(action: Text, payload: Json, action': Text, payload': Json)
    ensures Equivalent(Command(action, payload), Command(action', payload')) <==>
      action == action' && Equivalent(payload, payload')
  {
    var e, f := Command(action, payload).entries, Command(action', payload').entries;
    assert e[0].key != e[1].key && f[0].key != f[1].key by { assert ACTION[0] != PAYLOAD[0]; }
    if Equivalent(Command(action, payload), Command(action', payload')) {
      assert HasEntry(e[0], f) && HasEntry(e[1], f);
    }
    if action == action' && Equivalent(payload, payload') {
      assert f[0].key == e[0].key && Equivalent(e[0].value, f[0].value);
      assert f[1].key == e[1].key && Equivalent(e[1].value, f[1].value);
    }
  }

  /** Two proposals hash the same bytes exactly when they approve the same action on the same tree. */
  lemma ProposalBindsCommand(action: Text, payload: Json, action': Text, payload': Json)
    requires WellFormed(payload) && WellFormed(payload')
    requires Create(action, payload).Ok? && Create(action', payload').Ok?
    ensures Create(action, payload).value.hashed == Create(action', payload').value.hashed <==>
      action == action' && Equivalent(payload, payload')
  {
    var c, d := Command(action, payload), Command(action', payload');
    assert WellFormed(c) && WellFormed(d) by { assert ACTION[0] != PAYLOAD[0]; }
    CanonicalIffEquivalent(c, d);
    CommandsAlike(action, payload, action', payload');
    if Create(action, payload).value.hashed == Create(action', payload').value.hashed {
      Utf8.EncodeIsInjective(Canonical(c), Canonical(d));
    }
  }

  /** The public `payload` of a proposal is the tree that was approved. */
  lemma ProposalKeepsPayload(action: Text, payload: Json)
    requires WellFormed(payload) && Create(action, payload).Ok?
    ensures var stored := Read(Create(action, payload).value.canonicalPayload);
      stored.Some? && Equivalent(stored.value, payload)
  {
    ReadOfCanonical(payload);
  }
}
