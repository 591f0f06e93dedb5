/** The interactive loops that read field/value pairs until the sentinel
    `done`: the document loop of insert-one and insert-many, the query loop
    of read, update and delete, and the outer insert-many loop. */
module Builders {
  import opened Outcomes
  import opened Text
  import opened Scalars

  /** One field name and the value entered for it. */
  datatype Entry = Entry(key: string, value: string)

  /** A document to insert: field names mapped to the raw entered text. */
  type Document = map<string, string>

  /** A filter: field names mapped to coerced values. */
  type Query = map<string, Scalar>

  /** `key.lower() == 'done'`. */
  predicate IsDone(s: string)
  {
    Lower(s) == "done"
  }

  /** The pairs read from line `pos` on: a key line, then a value line, until
      a key line that is the sentinel. */
  function ScanEntries(lines: seq<string>, pos: nat): (r: Read<seq<Entry>>)
    ensures r.Ok? ==> pos < r.next <= |lines|
    decreases |lines| - pos
  {
    if pos >= |lines| then Crashed(EndOfInput)
    else if IsDone(lines[pos]) then Ok([], pos + 1)
    else if pos + 1 >= |lines| then Crashed(EndOfInput)
    else Prepend([Entry(lines[pos], lines[pos + 1])], ScanEntries(lines, pos + 2))
  }

  function Prepend(es: seq<Entry>, r: Read<seq<Entry>>): Read<seq<Entry>>
  {
    match r
    case Ok(rest, n) => Ok(es + rest, n)
    case Crashed(c) => Crashed(c)
  }

  lemma PrependNil(r: Read<seq<Entry>>)
    ensures Prepend([], r) == r
  {
    if r.Ok? { assert [] + r.value == r.value; }
  }

  lemma PrependTwice(a: seq<Entry>, b: seq<Entry>, r: Read<seq<Entry>>)
    ensures Prepend(a, Prepend(b, r)) == Prepend(a + b, r)
  {
    if r.Ok? { assert a + (b + r.value) == (a + b) + r.value; }
  }

  /** The scan reads consecutive key/value line pairs, none of whose keys is
      the sentinel, and stops just after the first key line that is. */
  lemma ScanEntriesShape(lines: seq<string>, pos: nat)
    requires ScanEntries(lines, pos).Ok?
    ensures var r := ScanEntries(lines, pos);
      && r.next == pos + 2 * |r.value| + 1
      && IsDone(lines[r.next - 1])
      && forall i :: 0 <= i < |r.value| ==>
           r.value[i] == Entry(lines[pos + 2 * i], lines[pos + 2 * i + 1]) && !IsDone(lines[pos + 2 * i])
  {
    ScanEntriesEnd(lines, pos);
    ScanEntriesPairs(lines, pos);
  }

  /** One pair read before the rest of the scan. */
  lemma ScanEntriesStep(lines: seq<string>, pos: nat)
    requires ScanEntries(lines, pos).Ok? && !IsDone(lines[pos])
    ensures pos + 1 < |lines| && ScanEntries(lines, pos + 2).Ok?
    ensures var rest := ScanEntries(lines, pos + 2);
      ScanEntries(lines, pos) == Ok([Entry(lines[pos], lines[pos + 1])] + rest.value, rest.next)
  {
  }

  /** The scan ends on the sentinel, after two lines per pair. */
  lemma {:induction false} ScanEntriesEnd(lines: seq<string>, pos: nat)
    requires ScanEntries(lines, pos).Ok?
    ensures var r := ScanEntries(lines, pos);
      r.next == pos + 2 * |r.value| + 1 && IsDone(lines[r.next - 1])
    decreases |lines| - pos
  {
    if !IsDone(lines[pos]) {
      ScanEntriesStep(lines, pos);
      ScanEntriesEnd(lines, pos + 2);
    }
  }

  /** Pair `i` is read from lines `pos + 2i` and `pos + 2i + 1`, and its key
      is not the sentinel. */
  lemma {:induction false} ScanEntriesPairs(lines: seq<string>, pos: nat)
    requires ScanEntries(lines, pos).Ok?
    ensures var r := ScanEntries(lines, pos);
      forall i :: 0 <= i < |r.value| ==>
        pos + 2 * i + 1 < |lines| && r.value[i] == Entry(lines[pos + 2 * i], lines[pos + 2 * i + 1]) && !IsDone(lines[pos + 2 * i])
    decreases |lines| - pos
  {
    if !IsDone(lines[pos]) {
      ScanEntriesStep(lines, pos);
      ScanEntriesPairs(lines, pos + 2);
      var rest := ScanEntries(lines, pos + 2).value;
      var es := ScanEntries(lines, pos).value;
      forall i | 0 <= i < |es|
        ensures pos + 2 * i + 1 < |lines| && es[i] == Entry(lines[pos + 2 * i], lines[pos + 2 * i + 1]) && !IsDone(lines[pos + 2 * i])
      {
        if i > 0 {
          assert es[i] == rest[i - 1];
          assert pos + 2 * i == (pos + 2) + 2 * (i - 1);
        }
      }
    }
  }

  /** The dictionary a loop builds: each pair assigned in turn, so a later
      value for a key replaces an earlier one. */
  function FieldMap(es: seq<Entry>): map<string, string>
  {
    if es == [] then map[] else FieldMap(es[..|es| - 1])[es[|es| - 1].key := es[|es| - 1].value]
  }

  /** The keys of the dictionary are exactly the keys entered. */
  lemma {:induction false} FieldMapKeys(es: seq<Entry>)
    ensures forall k :: k in FieldMap(es) <==> exists i :: 0 <= i < |es| && es[i].key == k
  {
    if es != [] {
      var init := es[..|es| - 1];
      FieldMapKeys(init);
      forall k ensures k in FieldMap(es) <==> exists i :: 0 <= i < |es| && es[i].key == k {
        if k in FieldMap(init) {
          var i :| 0 <= i < |init| && init[i].key == k;
          assert es[i].key == k;
        }
        if exists i :: 0 <= i < |es| && es[i].key == k {
          var i :| 0 <= i < |es| && es[i].key == k;
          if i < |es| - 1 { assert init[i].key == k; }
        }
      }
    }
  }

  /** The value stored for a key is the one entered with its last occurrence. */
  lemma {:induction false} FieldMapLastWins(es: seq<Entry>, i: nat)
    requires i < |es|
    requires forall j :: i < j < |es| ==> es[j].key != es[i].key
    ensures es[i].key in FieldMap(es) && FieldMap(es)[es[i].key] == es[i].value
  {
    if i < |es| - 1 {
      var init := es[..|es| - 1];
      FieldMapLastWins(init, i);
    }
  }

  /** The dictionary is empty exactly when no pair was entered. */
  lemma FieldMapEmpty(es: seq<Entry>)
    ensures FieldMap(es) == map[] <==> es == []
  {
    if es != [] {
      var last := es[|es| - 1];
      assert last.key in FieldMap(es);
    }
  }

  /** The document insert-one builds, values kept as entered. */
  function DocumentRead(lines: seq<string>, pos: nat): (r: Read<Document>)
    ensures r.Ok? ==> pos < r.next <= |lines|
  {
    match ScanEntries(lines, pos)
    case Ok(es, n) => Ok(FieldMap(es), n)
    case Crashed(c) => Crashed(c)
  }

  /** Every value passed through the coercion. */
  function CoerceAll(m: map<string, string>): (q: Query)
    ensures q.Keys == m.Keys
    ensures forall k :: k in q ==> q[k] == Coerce(m[k])
  {
    map k | k in m :: Coerce(m[k])
  }

  /** The query the read, update and delete loops build. */
  function QueryRead(lines: seq<string>, pos: nat): (r: Read<Query>)
    ensures r.Ok? ==> pos < r.next <= |lines|
  {
    match ScanEntries(lines, pos)
    case Ok(es, n) => Ok(CoerceAll(FieldMap(es)), n)
    case Crashed(c) => Crashed(c)
  }

  /** Everything the query loop promises: it stops at the first key line
      that is the sentinel; its keys are the entered keys; each key holds
      the coercion of its last entered value. */
  lemma QueryReadMeaning(lines: seq<string>, pos: nat, i: nat)
    requires ScanEntries(lines, pos).Ok?
    requires i < |ScanEntries(lines, pos).value|
    requires var es := ScanEntries(lines, pos).value;
      forall j :: i < j < |es| ==> es[j].key != es[i].key
    ensures var es := ScanEntries(lines, pos).value;
      var q := QueryRead(lines, pos).value;
      && QueryRead(lines, pos).next == pos + 2 * |es| + 1
      && IsDone(lines[QueryRead(lines, pos).next - 1])
      && (forall j :: 0 <= j < |es| ==> !IsDone(lines[pos + 2 * j]))
      && (forall k :: k in q <==> exists j :: 0 <= j < |es| && es[j].key == k)
      && q[es[i].key] == Coerce(es[i].value)
  {
    QueryReadSentinel(lines, pos);
    QueryReadValue(lines, pos);
    CoercedFieldMap(ScanEntries(lines, pos).value, i);
  }

  /** The query loop ends where the scan ends, just after the first key
      line that is the sentinel. */
  lemma QueryReadSentinel(lines: seq<string>, pos: nat)
    requires ScanEntries(lines, pos).Ok?
    ensures var es := ScanEntries(lines, pos).value;
      && QueryRead(lines, pos).next == pos + 2 * |es| + 1
      && IsDone(lines[QueryRead(lines, pos).next - 1])
      && forall j :: 0 <= j < |es| ==> !IsDone(lines[pos + 2 * j])
  {
    ScanEntriesShape(lines, pos);
  }

  lemma QueryReadValue(lines: seq<string>, pos: nat)
    requires ScanEntries(lines, pos).Ok?
    ensures QueryRead(lines, pos).value == CoerceAll(FieldMap(ScanEntries(lines, pos).value))
  {
  }

  lemma CoercedFieldMap(es: seq<Entry>, i: nat)
    requires i < |es|
    requires forall j :: i < j < |es| ==> es[j].key != es[i].key
    ensures var q := CoerceAll(FieldMap(es));
      && (forall k :: k in q <==> exists j :: 0 <= j < |es| && es[j].key == k)
      && q[es[i].key] == Coerce(es[i].value)
  {
    FieldMapKeys(es);
    FieldMapLastWins(es, i);
  }

  /** The insert-one and insert-many inner loop (lines 34-40 and 52-59 of the shell). */
  method ReadDocument(lines: seq<string>, pos: nat) returns (out: Read<Document>)
    ensures out == DocumentRead(lines, pos)
  {
    var document: Document := map[];
    ghost var es: seq<Entry> := [];
    var i := pos;
    if i > |lines| { return Crashed(EndOfInput); }
    PrependNil(ScanEntries(lines, pos));
    while true
      invariant pos <= i <= |lines|
      invariant document == FieldMap(es)
      invariant ScanEntries(lines, pos) == Prepend(es, ScanEntries(lines, i))
      decreases |lines| - i
    {
      if i == |lines| { return Crashed(EndOfInput); }
      var key := lines[i];
      if IsDone(key) {
        assert es + [] == es;
        return Ok(document, i + 1);
      }
      if i + 1 == |lines| { return Crashed(EndOfInput); }
      var value := lines[i + 1];
      document := document[key := value];
      PrependTwice(es, [Entry(key, value)], ScanEntries(lines, i + 2));
      es := es + [Entry(key, value)];
      i := i + 2;
    }
  }

  lemma CoerceAllUpdate(m: map<string, string>, k: string, v: string)
    ensures CoerceAll(m[k := v]) == CoerceAll(m)[k := Coerce(v)]
  {
  }

  /** The query loop of read, update and delete (lines 86-98, 159-170, 236-247). */
  method ReadQuery(lines: seq<string>, pos: nat) returns (out: Read<Query>)
    ensures out == QueryRead(lines, pos)
  {
    var query: Query := map[];
    ghost var es: seq<Entry> := [];
    var i := pos;
    if i > |lines| { return Crashed(EndOfInput); }
    PrependNil(ScanEntries(lines, pos));
    while true
      invariant pos <= i <= |lines|
      invariant query == CoerceAll(FieldMap(es))
      invariant ScanEntries(lines, pos) == Prepend(es, ScanEntries(lines, i))
      decreases |lines| - i
    {
      if i == |lines| { return Crashed(EndOfInput); }
      var key := lines[i];
      if IsDone(key) {
        assert es + [] == es;
        return Ok(query, i + 1);
      }
      if i + 1 == |lines| { return Crashed(EndOfInput); }
      var value := lines[i + 1];
      CoerceAllUpdate(FieldMap(es), key, value);
      query := query[key := Coerce(value)];
      PrependTwice(es, [Entry(key, value)], ScanEntries(lines, i + 2));
      es := es + [Entry(key, value)];
      i := i + 2;
    }
  }

  /** The insert-many outer loop from line `pos` on, with the documents kept
      so far: read a document, keep it unless empty, then go on only if the
      next answer, lower-cased, is `y`. */
  function DocumentsLoop(lines: seq<string>, pos: nat, docs: seq<Document>): (r: Read<seq<Document>>)
    ensures r.Ok? ==> pos < r.next <= |lines|
    decreases |lines| - pos
  {
    match DocumentRead(lines, pos)
    case Crashed(c) => Crashed(c)
    case Ok(d, n) =>
      var kept := if d != map[] then docs + [d] else docs;
      if n >= |lines| then Crashed(EndOfInput)
      else if Lower(lines[n]) != "y" then Ok(kept, n + 1)
      else DocumentsLoop(lines, n + 1, kept)
  }

  /** Insert-many never collects an empty document, and keeps the ones it
      already had in front. */
  lemma {:induction false} DocumentsLoopNonEmpty(lines: seq<string>, pos: nat, docs: seq<Document>)
    requires forall j :: 0 <= j < |docs| ==> docs[j] != map[]
    requires DocumentsLoop(lines, pos, docs).Ok?
    ensures var ds := DocumentsLoop(lines, pos, docs).value;
      docs <= ds && forall j :: 0 <= j < |ds| ==> ds[j] != map[]
    decreases |lines| - pos
  {
    var d := DocumentRead(lines, pos);
    var kept := if d.value != map[] then docs + [d.value] else docs;
    assert docs <= kept;
    if Lower(lines[d.next]) == "y" {
      DocumentsLoopNonEmpty(lines, d.next + 1, kept);
    }
  }

  lemma DocumentsLoopStep(lines: seq<string>, pos: nat, docs: seq<Document>)
    requires DocumentRead(lines, pos).Ok?
    ensures var d := DocumentRead(lines, pos);
      var kept := if d.value != map[] then docs + [d.value] else docs;
      DocumentsLoop(lines, pos, docs) ==
        if d.next >= |lines| then Crashed(EndOfInput)
        else if Lower(lines[d.next]) != "y" then Ok(kept, d.next + 1)
        else DocumentsLoop(lines, d.next + 1, kept)
  {
  }

  /** The insert-many outer loop (lines 50-68). */
  method ReadDocuments(lines: seq<string>, pos: nat) returns (out: Read<seq<Document>>)
    ensures out == DocumentsLoop(lines, pos, [])
  {
    var documents: seq<Document> := [];
    var i := pos;
    while true
      invariant pos <= i
      invariant DocumentsLoop(lines, pos, []) == DocumentsLoop(lines, i, documents)
      decreases |lines| - i
    {
      var document := ReadDocument(lines, i);
      if document.Crashed? { return Crashed(document.crash); }
      DocumentsLoopStep(lines, i, documents);
      if document.value != map[] {
        documents := documents + [document.value];
      }
      var n := document.next;
      if n == |lines| { return Crashed(EndOfInput); }
      var more := Lower(lines[n]);
      if more != "y" { return Ok(documents, n + 1); }
      i := n + 1;
    }
  }
}
