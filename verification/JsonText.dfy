/**
 * JSON values and their compact text: the writer that approval hashing uses and the reader that gives
 * a stored payload back. Strings follow section 7 of RFC 8259 with only the mandatory escapes;
 * floats are opaque number tokens that no integer shares.
 */
module JsonText {
  import opened Prelude
  import opened Decimals

  /** Object entries keep their insertion order. */
  datatype Json =
    | Null
    | Bool(flag: bool)
    | Int(number: int)
    | Float(token: Text)
    | Str(text: Text)
    | Arr(items: seq<Json>)
    | Obj(entries: seq<Entry>)

  datatype Entry = Entry(key: Text, value: Json)

  predicate NumberChar(c: Code) { IsDigit(c) || c == 43 || c == 45 || c == 46 || c == 69 || c == 101 }

  /** The text of a finite float: a number with a fraction or an exponent. */
  predicate IsFloatToken(t: Text) {
    (46 in t || 101 in t) && forall i :: 0 <= i < |t| ==> NumberChar(t[i])
  }

  ghost predicate DistinctKeys(entries: seq<Entry>) {
    forall i, j :: 0 <= i < j < |entries| ==> entries[i].key != entries[j].key
  }

  /** What an acyclic Python value of the accepted types unfolds to. */
  ghost predicate WellFormed(j: Json) {
    match j
    case Float(token) => IsFloatToken(token)
    case Arr(items) => forall i :: 0 <= i < |items| ==> WellFormed(items[i])
    case Obj(entries) => DistinctKeys(entries) && forall i :: 0 <= i < |entries| ==> WellFormed(entries[i].value)
    case _ => true
  }

  // ---------------------------------------------------------------- the writer

  const NULL: Text := [110, 117, 108, 108]
  const TRUE: Text := [116, 114, 117, 101]
  const FALSE: Text := [102, 97, 108, 115, 101]

  function Escape(c: Code): (s: Text)
    ensures |s| > 0
  {
    if c == 34 then [92, 34]
    else if c == 92 then [92, 92]
    else if c == 10 then [92, 110]
    else if c == 13 then [92, 114]
    else if c == 9 then [92, 116]
    else if c == 12 then [92, 102]
    else if c == 8 then [92, 98]
    else if c < 32 then [92, 117, 48, 48, LowerHex(c / 16), LowerHex(c % 16)]
    else [c]
  }

  function EscapeAll(s: Text): Text {
    if s == [] then [] else Escape(s[0]) + EscapeAll(s[1..])
  }

  function WriteString(s: Text): Text { [34] + EscapeAll(s) + [34] }

  function WriteInt(n: int): Text { if n < 0 then [45] + Render(-n) else Render(n) }

  /** `json.dumps` with compact separators, entries in their own order. */
  function Write(j: Json): Text {
    match j
    case Null => NULL
    case Bool(flag) => if flag then TRUE else FALSE
    case Int(n) => WriteInt(n)
    case Float(token) => token
    case Str(s) => WriteString(s)
    case Arr(items) => [91] + WriteItems(items) + [93]
    case Obj(entries) => [123] + WriteEntries(entries) + [125]
  }

  function WriteItems(items: seq<Json>): Text {
    if items == [] then []
    else if |items| == 1 then Write(items[0])
    else Write(items[0]) + [44] + WriteItems(items[1..])
  }

  function WriteEntry(e: Entry): Text { WriteString(e.key) + [58] + Write(e.value) }

  function WriteEntries(entries: seq<Entry>): Text {
    if entries == [] then []
    else if |entries| == 1 then WriteEntry(entries[0])
    else WriteEntry(entries[0]) + [44] + WriteEntries(entries[1..])
  }

  /** `"a":[-1,null]`. */
  const FIRST_ENTRY: Text := [34, 97, 34, 58, 91, 45, 49, 44, 110, 117, 108, 108, 93]

  /** `"b":true`. */
  const SECOND_ENTRY: Text := [34, 98, 34, 58, 116, 114, 117, 101]

  /** `{"a":[-1,null],"b":true}`. */
  lemma WriteExample()
    ensures Write(Obj([Entry([97], Arr([Int(-1), Null])), Entry([98], Bool(true))])) ==
      [123] + (FIRST_ENTRY + [44] + SECOND_ENTRY) + [125]
  {
    var a, b := Entry([97], Arr([Int(-1), Null])), Entry([98], Bool(true));
    FirstEntryExample();
    SecondEntryExample();
    hide WriteEntry;
    assert [a, b][1..] == [b];
    assert WriteEntries([b]) == WriteEntry(b);
  }

  lemma FirstEntryExample()
    ensures WriteEntry(Entry([97], Arr([Int(-1), Null]))) == FIRST_ENTRY
  {
    var items := [Int(-1), Null];
    assert WriteItems(items) == [45, 49, 44, 110, 117, 108, 108] by {
      assert items[1..] == [Null];
      assert Write(Int(-1)) == [45, 49] by { assert Render(1) == [49]; }
      assert WriteItems([Null]) == NULL;
    }
    assert EscapeAll([97]) == [97] by { assert [97][1..] == []; }
    hide WriteItems, EscapeAll;
  }

  lemma SecondEntryExample()
    ensures WriteEntry(Entry([98], Bool(true))) == SECOND_ENTRY
  {
    assert EscapeAll([98]) == [98] by { assert [98][1..] == []; }
    hide EscapeAll;
  }

  // ---------------------------------------------------------------- the reader

  function Unescape(c: Code): Option<Code> {
    match c
    case 34 => Some(34)
    case 92 => Some(92)
    case 47 => Some(47)
    case 98 => Some(8)
    case 102 => Some(12)
    case 110 => Some(10)
    case 114 => Some(13)
    case 116 => Some(9)
    case _ => None
  }

  /** The first character of a string body and the number of text characters it takes. */
  function ReadChar(s: Text): Option<(Code, nat)>
    requires s != []
  {
    if s[0] == 92 then
      if |s| >= 6 && s[1] == 117 then
        var a, b, c, d := HexValue(s[2]), HexValue(s[3]), HexValue(s[4]), HexValue(s[5]);
        if a.None? || b.None? || c.None? || d.None? then None
        else Some((((a.value * 16 + b.value) * 16 + c.value) * 16 + d.value, 6))
      else if |s| >= 2 && Unescape(s[1]).Some? then Some((Unescape(s[1]).value, 2))
      else None
    else if s[0] < 32 then None
    else Some((s[0], 1))
  }

  /** The string whose opening quote has been read, and the text after its closing quote. */
  function ReadString(s: Text): (r: Option<(Text, Text)>)
    ensures r.Some? ==> |r.value.1| < |s|
  {
    if s == [] then None
    else if s[0] == 34 then Some(([], s[1..]))
    else match ReadChar(s)
      case None => None
      case Some((c, n)) =>
        if n == 0 || n > |s| then None
        else match ReadString(s[n..])
          case None => None
          case Some((text, rest)) => Some(([c] + text, rest))
  }

  function NumberRun(s: Text): (n: nat)
    ensures n <= |s|
  {
    if s == [] || !NumberChar(s[0]) then 0 else 1 + NumberRun(s[1..])
  }

  function ReadNumber(s: Text): (r: Option<(Json, Text)>)
    ensures r.Some? ==> |r.value.1| < |s|
  {
    var n := NumberRun(s);
    var token := s[..n];
    if n > 0 && Canonical(token) then Some((Int(Value(token)), s[n..]))
    else if n > 1 && token[0] == 45 && Canonical(token[1..]) then Some((Int(-(Value(token[1..]) as int)), s[n..]))
    else if n > 0 && IsFloatToken(token) then Some((Float(token), s[n..]))
    else None
  }

  /** One value and the text after it. */
  function ReadValue(s: Text): (r: Option<(Json, Text)>)
    ensures r.Some? ==> |r.value.1| < |s|
    decreases |s|, 0
  {
    if NULL <= s then Some((Null, s[4..]))
    else if TRUE <= s then Some((Bool(true), s[4..]))
    else if FALSE <= s then Some((Bool(false), s[5..]))
    else if s == [] then None
    else if s[0] == 34 then
      match ReadString(s[1..])
      case None => None
      case Some((text, rest)) => Some((Str(text), rest))
    else if s[0] == 91 then
      if |s| > 1 && s[1] == 93 then Some((Arr([]), s[2..]))
      else match ReadItems(s[1..])
        case None => None
        case Some((items, rest)) => Some((Arr(items), rest))
    else if s[0] == 123 then
      if |s| > 1 && s[1] == 125 then Some((Obj([]), s[2..]))
      else match ReadEntries(s[1..])
        case None => None
        case Some((entries, rest)) => Some((Obj(Dict(entries)), rest))
    else ReadNumber(s)
  }

  function ReadItems(s: Text): (r: Option<(seq<Json>, Text)>)
    ensures r.Some? ==> |r.value.1| < |s|
    decreases |s|, 1
  {
    match ReadValue(s)
    case None => None
    case Some((item, rest)) =>
      if rest == [] then None
      else if rest[0] == 93 then Some(([item], rest[1..]))
      else if rest[0] == 44 then
        match ReadItems(rest[1..])
        case None => None
        case Some((items, after)) => Some(([item] + items, after))
      else None
  }

  function ReadEntries(s: Text): (r: Option<(seq<Entry>, Text)>)
    ensures r.Some? ==> |r.value.1| < |s|
    decreases |s|, 1
  {
    if s == [] || s[0] != 34 then None
    else match ReadString(s[1..])
      case None => None
      case Some((key, afterKey)) =>
        if afterKey == [] || afterKey[0] != 58 then None
        else match ReadValue(afterKey[1..])
          case None => None
          case Some((value, rest)) =>
            if rest == [] then None
            else if rest[0] == 125 then Some(([Entry(key, value)], rest[1..]))
            else if rest[0] == 44 then
              match ReadEntries(rest[1..])
              case None => None
              case Some((entries, after)) => Some(([Entry(key, value)] + entries, after))
            else None
  }

  /** `dict(pairs)`: a repeated key keeps its place and takes the later value. */
  function Dict(pairs: seq<Entry>): seq<Entry> {
    if pairs == [] then [] else Put(Dict(pairs[..|pairs| - 1]), pairs[|pairs| - 1])
  }

  function Put(entries: seq<Entry>, e: Entry): seq<Entry> {
    if entries == [] then [e]
    else if entries[0].key == e.key then [e] + entries[1..]
    else [entries[0]] + Put(entries[1..], e)
  }

  /** `json.loads` of a text without insignificant white space. */
  function Read(s: Text): Option<Json> {
    match ReadValue(s)
    case None => None
    case Some((j, rest)) => if rest == [] then Some(j) else None
  }

  // ---------------------------------------------------------------- reading undoes writing

  lemma ReadCharOfEscape(c: Code, rest: Text)
    ensures Escape(c) + rest != [] && (Escape(c) + rest)[0] != 34
    ensures ReadChar(Escape(c) + rest) == Some((c, |Escape(c)|))
  {
    if c < 32 {
      assert HexValue(LowerHex(c / 16)) == Some(c / 16) && HexValue(LowerHex(c % 16)) == Some(c % 16);
      assert c == c / 16 * 16 + c % 16;
    }
  }

  lemma {:induction false} ReadStringOfWrite(s: Text, rest: Text)
    ensures ReadString(EscapeAll(s) + [34] + rest) == Some((s, rest))
  {
    var all := EscapeAll(s) + [34] + rest;
    if s == [] {
      assert all == [34] + rest;
      assert all[1..] == rest;
    } else {
      var head, tail := Escape(s[0]), EscapeAll(s[1..]) + [34] + rest;
      assert all == head + tail;
      ReadCharOfEscape(s[0], tail);
      ReadStringOfWrite(s[1..], rest);
      assert all[|head|..] == tail;
      assert s == [s[0]] + s[1..];
    }
  }

  ghost predicate EndsNumber(rest: Text) { rest == [] || !NumberChar(rest[0]) }

  lemma {:induction false} NumberRunOf(token: Text, rest: Text)
    requires EndsNumber(rest) && forall i :: 0 <= i < |token| ==> NumberChar(token[i])
    ensures NumberRun(token + rest) == |token|
  {
    if token == [] {
      assert token + rest == rest;
    } else {
      NumberRunOf(token[1..], rest);
      assert (token + rest)[1..] == token[1..] + rest;
    }
  }

  lemma ReadNumberOfFloat(token: Text, rest: Text)
    requires EndsNumber(rest) && IsFloatToken(token)
    ensures ReadNumber(token + rest) == Some((Float(token), rest))
  {
    NumberRunOf(token, rest);
    assert (token + rest)[..|token|] == token && (token + rest)[|token|..] == rest;
    var i :| 0 <= i < |token| && (token[i] == 46 || token[i] == 101);
    assert !IsDigit(token[i]);
    if token[0] == 45 {
      assert token[1..][i - 1] == token[i];
    }
  }

  lemma ReadNumberOfInt(n: int, rest: Text)
    requires EndsNumber(rest)
    ensures WriteInt(n) != [] && (IsDigit(WriteInt(n)[0]) || WriteInt(n)[0] == 45)
    ensures ReadNumber(WriteInt(n) + rest) == Some((Int(n), rest))
  {
    var token, digits := WriteInt(n), Render(if n < 0 then -n else n);
    RenderRoundTrip(if n < 0 then -n else n);
    NumberRunOf(token, rest);
    assert (token + rest)[..|token|] == token && (token + rest)[|token|..] == rest;
    if n < 0 {
      assert token[1..] == digits;
      assert !IsDigit(token[0]);
    }
  }

  lemma {:induction false} PutOfFresh(entries: seq<Entry>, e: Entry)
    requires forall i :: 0 <= i < |entries| ==> entries[i].key != e.key
    ensures Put(entries, e) == entries + [e]
  {
    if entries != [] {
      PutOfFresh(entries[1..], e);
      assert entries == [entries[0]] + entries[1..];
    }
  }

  lemma {:induction false} DictOfDistinct(pairs: seq<Entry>)
    requires DistinctKeys(pairs)
    ensures Dict(pairs) == pairs
  {
    if pairs != [] {
      var front := pairs[..|pairs| - 1];
      DictOfDistinct(front);
      PutOfFresh(front, pairs[|pairs| - 1]);
      assert pairs == front + [pairs[|pairs| - 1]];
    }
  }

  lemma ReadValueOfNumber(s: Text)
    requires s != [] && NumberChar(s[0])
    ensures ReadValue(s) == ReadNumber(s)
  {
    hide ReadNumber, ReadString, ReadItems, ReadEntries;
    assert NULL[0] == 110 && TRUE[0] == 116 && FALSE[0] == 102;
  }

  lemma ReadValueOfWord(word: Text, value: Json, rest: Text)
    requires (word == NULL && value == Null) || (word == TRUE && value == Bool(true)) ||
      (word == FALSE && value == Bool(false))
    ensures ReadValue(word + rest) == Some((value, rest))
  {
    hide ReadNumber, ReadString, ReadItems, ReadEntries;
    var s := word + rest;
    assert s[|word|..] == rest && s[0] == word[0];
    assert NULL[0] == 110 && TRUE[0] == 116 && FALSE[0] == 102;
  }

  /** Past its opening character, a string, array or object is read by its own reader. */
  lemma ReadValueOfString(s: Text)
    ensures ReadValue([34] + s) ==
      match ReadString(s) case None => None case Some((text, rest)) => Some((Str(text), rest))
  {
    hide ReadNumber, ReadString, ReadItems, ReadEntries;
    assert NULL[0] == 110 && TRUE[0] == 116 && FALSE[0] == 102;
    assert ([34] + s)[1..] == s && ([34] + s)[0] == 34;
  }

  lemma ReadValueOfArray(s: Text)
    requires s != []
    ensures ReadValue([91] + s) ==
      if s[0] == 93 then Some((Arr([]), s[1..]))
      else match ReadItems(s) case None => None case Some((items, rest)) => Some((Arr(items), rest))
  {
    hide ReadNumber, ReadString, ReadItems, ReadEntries;
    assert NULL[0] == 110 && TRUE[0] == 116 && FALSE[0] == 102;
    var all := [91] + s;
    assert all[1..] == s && all[0] == 91 && all[1] == s[0] && all[2..] == s[1..];
  }

  lemma ReadValueOfObject(s: Text)
    requires s != []
    ensures ReadValue([123] + s) ==
      if s[0] == 125 then Some((Obj([]), s[1..]))
      else match ReadEntries(s) case None => None case Some((entries, rest)) => Some((Obj(Dict(entries)), rest))
  {
    hide ReadNumber, ReadString, ReadItems, ReadEntries;
    assert NULL[0] == 110 && TRUE[0] == 116 && FALSE[0] == 102;
    var all := [123] + s;
    assert all[1..] == s && all[0] == 123 && all[1] == s[0] && all[2..] == s[1..];
  }

  /** No value is written with a closing bracket in front. */
  lemma WriteStartsApart(j: Json)
    requires WellFormed(j)
    ensures Write(j) != [] && Write(j)[0] != 93
  {
    match j
    case Int(n) => ReadNumberOfInt(n, []);
    case Float(token) => assert NumberChar(token[0]);
    case _ =>
  }

  /** Reading undoes writing, for every value and whatever text follows it. */
  lemma {:induction false} ReadOfWrite(j: Json, rest: Text)
    requires WellFormed(j) && EndsNumber(rest)
    ensures ReadValue(Write(j) + rest) == Some((j, rest))
    decreases j, 1, 0
  {
    hide ReadValue, ReadNumber, ReadString, ReadItems, ReadEntries, WriteInt, Dict, EscapeAll, WriteItems, WriteEntries;
    match j
    case Null => ReadValueOfWord(NULL, Null, rest);
    case Bool(flag) => ReadValueOfWord(if flag then TRUE else FALSE, j, rest);
    case Int(n) =>
      ReadNumberOfInt(n, rest);
      ReadValueOfNumber(Write(j) + rest);
    case Float(token) =>
      ReadNumberOfFloat(token, rest);
      ReadValueOfNumber(Write(j) + rest);
    case Str(s) =>
      ReadStringOfWrite(s, rest);
      StringIsRead(s, rest);
    case Arr(items) =>
      if items != [] {
        ReadItemsOfWrite(items, rest, j);
      }
      ArrayIsRead(items, rest);
    case Obj(entries) =>
      if entries != [] {
        ReadEntriesOfWrite(entries, rest, j);
      }
      ObjectIsRead(entries, rest);
  }

  lemma StringIsRead(s: Text, rest: Text)
    requires ReadString(EscapeAll(s) + [34] + rest) == Some((s, rest))
    ensures ReadValue(Write(Str(s)) + rest) == Some((Str(s), rest))
  {
    hide ReadValue, ReadString, EscapeAll;
    assert Write(Str(s)) + rest == [34] + (EscapeAll(s) + [34] + rest);
    ReadValueOfString(EscapeAll(s) + [34] + rest);
  }

  lemma ArrayIsRead(items: seq<Json>, rest: Text)
    requires var body := WriteItems(items) + [93] + rest;
      items == [] || (body[0] != 93 && ReadItems(body) == Some((items, rest)))
    ensures ReadValue(Write(Arr(items)) + rest) == Some((Arr(items), rest))
  {
    NoItems();
    hide ReadValue, ReadItems, WriteItems;
    var body := WriteItems(items) + [93] + rest;
    assert Write(Arr(items)) + rest == [91] + body;
    ReadValueOfArray(body);
    if items == [] {
      assert body == [93] + rest && body[1..] == rest;
    }
  }

  lemma ObjectIsRead(entries: seq<Entry>, rest: Text)
    requires WellFormed(Obj(entries))
    requires var body := WriteEntries(entries) + [125] + rest;
      entries == [] || (body[0] == 34 && ReadEntries(body) == Some((entries, rest)))
    ensures ReadValue(Write(Obj(entries)) + rest) == Some((Obj(entries), rest))
  {
    NoItems();
    hide ReadValue, ReadEntries, WriteEntries, Dict;
    var body := WriteEntries(entries) + [125] + rest;
    assert Write(Obj(entries)) + rest == [123] + body;
    ReadValueOfObject(body);
    if entries == [] {
      assert body == [125] + rest && body[1..] == rest;
    } else {
      DictOfDistinct(entries);
    }
  }

  lemma NoItems()
    ensures WriteItems([]) == [] && WriteEntries([]) == []
  {
  }

  /** One item or entry is read off the front; a bracket ends the list and a comma continues it. */
  lemma ReadItemsStep(written: Text, item: Json, after: Text)
    requires after != [] && ReadValue(written + after) == Some((item, after))
    ensures after[0] == 93 ==> ReadItems(written + after) == Some(([item], after[1..]))
    ensures after[0] == 44 && ReadItems(after[1..]).Some? ==>
      ReadItems(written + after) == Some(([item] + ReadItems(after[1..]).value.0, ReadItems(after[1..]).value.1))
  {
    hide ReadValue;
  }

  lemma ReadEntriesStep(e: Entry, after: Text)
    requires after != [] && ReadValue(Write(e.value) + after) == Some((e.value, after))
    ensures WriteEntry(e) != [] && WriteEntry(e)[0] == 34
    ensures after[0] == 125 ==> ReadEntries(WriteEntry(e) + after) == Some(([e], after[1..]))
    ensures after[0] == 44 && ReadEntries(after[1..]).Some? ==>
      ReadEntries(WriteEntry(e) + after) ==
        Some(([e] + ReadEntries(after[1..]).value.0, ReadEntries(after[1..]).value.1))
  {
    hide ReadValue, ReadString, EscapeAll, Write;
    var body := WriteEntry(e) + after;
    var afterKey := [58] + (Write(e.value) + after);
    ReadStringOfWrite(e.key, afterKey);
    assert body == [34] + (EscapeAll(e.key) + [34] + afterKey);
    assert body[0] == 34 && body[1..] == EscapeAll(e.key) + [34] + afterKey;
    assert afterKey[0] == 58 && afterKey[1..] == Write(e.value) + after;
  }

  lemma {:induction false} ReadItemsOfWrite(items: seq<Json>, rest: Text, parent: Json)
    requires items != [] && forall i :: 0 <= i < |items| ==> WellFormed(items[i]) && items[i] < parent
    ensures var body := WriteItems(items) + [93] + rest;
      body[0] != 93 && ReadItems(body) == Some((items, rest))
    decreases parent, 0, |items|
  {
    hide ReadValue, Write, ReadItems, WriteItems;
    var tail := WriteItems(items[1..]) + [93] + rest;
    var after := if |items| == 1 then [93] + rest else [44] + tail;
    WriteStartsApart(items[0]);
    ReadOfWrite(items[0], after);
    ItemsSplit(items, rest);
    ReadItemsStep(Write(items[0]), items[0], after);
    if |items| == 1 {
      assert after[1..] == rest && items == [items[0]];
    } else {
      ReadItemsOfWrite(items[1..], rest, parent);
      assert after[1..] == tail && items == [items[0]] + items[1..];
    }
  }

  lemma {:induction false} ReadEntriesOfWrite(entries: seq<Entry>, rest: Text, parent: Json)
    requires entries != []
    requires forall i :: 0 <= i < |entries| ==> WellFormed(entries[i].value) && entries[i].value < parent
    ensures var body := WriteEntries(entries) + [125] + rest;
      body[0] == 34 && ReadEntries(body) == Some((entries, rest))
    decreases parent, 0, |entries|
  {
    hide ReadValue, Write, WriteEntry, WriteEntries, ReadEntries;
    var tail := WriteEntries(entries[1..]) + [125] + rest;
    var after := if |entries| == 1 then [125] + rest else [44] + tail;
    ReadOfWrite(entries[0].value, after);
    EntriesSplit(entries, rest);
    ReadEntriesStep(entries[0], after);
    if |entries| == 1 {
      assert after[1..] == rest && entries == [entries[0]];
    } else {
      ReadEntriesOfWrite(entries[1..], rest, parent);
      assert after[1..] == tail && entries == [entries[0]] + entries[1..];
    }
  }

  lemma ItemsSplit(items: seq<Json>, rest: Text)
    requires items != []
    ensures WriteItems(items) + [93] + rest ==
      Write(items[0]) + if |items| == 1 then [93] + rest else [44] + (WriteItems(items[1..]) + [93] + rest)
  {
    hide Write;
    if |items| > 1 {
      Regroup(Write(items[0]), WriteItems(items[1..]), [93], rest);
    } else {
      assert WriteItems(items) == Write(items[0]);
    }
  }

  lemma EntriesSplit(entries: seq<Entry>, rest: Text)
    requires entries != []
    ensures WriteEntries(entries) + [125] + rest ==
      WriteEntry(entries[0]) +
      if |entries| == 1 then [125] + rest else [44] + (WriteEntries(entries[1..]) + [125] + rest)
  {
    hide WriteEntry;
    if |entries| > 1 {
      Regroup(WriteEntry(entries[0]), WriteEntries(entries[1..]), [125], rest);
    } else {
      assert WriteEntries(entries) == WriteEntry(entries[0]);
    }
  }

  lemma Regroup(first: Text, more: Text, close: Text, rest: Text)
    ensures first + [44] + more + close + rest == first + ([44] + (more + close + rest))
  {
  }
}
