/** The menus of the shell. Each action reads its lines, builds what it
    needs, and hands at most one request to the collection, besides the
    count that read-many asks for after showing documents (`ReadManyFollowUp`);
    the session returns the log of those requests. */
module Shell {
  import opened Outcomes
  import opened Text
  import opened Scalars
  import opened Builders
  import opened Updates

  /** A request handed to the collection. */
  datatype Call =
    | InsertOne(document: Document)
    | InsertMany(documents: seq<Document>)
    | FindOne(query: Query)
    | FindMany(query: Query, limit: int)
    | FindAll(query: Query)
    | CountDocuments(query: Query)
    | UpdateOne(query: Query, update: UpdateDoc)
    | UpdateMany(query: Query, update: UpdateDoc)
    | DeleteOne(query: Query)
    | DeleteMany(query: Query)
    | Close

  /** The requests an action issued. */
  function Issued(c: Option<Call>): seq<Call>
  {
    match c
    case None => []
    case Some(x) => [x]
  }

  /** `answer.lower() == 'y'`. */
  predicate Confirms(answer: string)
  {
    Lower(answer) == "y"
  }

  /** What the write guards promise of a request: nothing empty is inserted,
      and no update goes out without an operator. */
  predicate Guarded(c: Call)
  {
    match c
    case InsertOne(d) => d != map[]
    case InsertMany(ds) => ds != [] && forall i :: 0 <= i < |ds| ==> ds[i] != map[]
    case UpdateOne(_, u) => u != map[] && WellFormed(u)
    case UpdateMany(_, u) => u != map[] && WellFormed(u)
    case _ => true
  }

  /** `insert_data` (lines 25-74) from its option line at `pos`. */
  function InsertAction(lines: seq<string>, pos: nat): (r: Read<Option<Call>>)
    ensures r.Ok? ==> pos < r.next <= |lines|
  {
    if pos >= |lines| then Crashed(EndOfInput)
    else if lines[pos] == "1" then
      match DocumentRead(lines, pos + 1)
      case Crashed(c) => Crashed(c)
      case Ok(d, n) => Ok(if d != map[] then Some(InsertOne(d)) else None, n)
    else if lines[pos] == "2" then
      match DocumentsLoop(lines, pos + 1, [])
      case Crashed(c) => Crashed(c)
      case Ok(ds, n) => Ok(if ds != [] then Some(InsertMany(ds)) else None, n)
    else Ok(None, pos + 1)
  }

  /** `read_data` (lines 76-148) from its option line at `pos`. */
  function ReadAction(lines: seq<string>, pos: nat): (r: Read<Option<Call>>)
    ensures r.Ok? ==> pos < r.next <= |lines|
  {
    if pos >= |lines| then Crashed(EndOfInput)
    else
      var selection := lines[pos];
      if selection != "1" && selection != "2" && selection != "3" then Ok(None, pos + 1)
      else
        match QueryRead(lines, pos + 1)
        case Crashed(c) => Crashed(c)
        case Ok(q, n) =>
          if selection == "1" then Ok(Some(FindOne(q)), n)
          else if n >= |lines| then Crashed(EndOfInput)
          else if selection == "2" then Ok(Some(FindMany(q, ParseLimit(lines[n]))), n + 1)
          else Ok(if Confirms(lines[n]) then Some(FindAll(q)) else None, n + 1)
  }

  /** `update_data` (lines 150-225) from its option line at `pos`. */
  function UpdateAction(lines: seq<string>, pos: nat): (r: Read<Option<Call>>)
    ensures r.Ok? ==> pos < r.next <= |lines|
  {
    if pos >= |lines| then Crashed(EndOfInput)
    else
      var selection := lines[pos];
      if selection != "1" && selection != "2" then Ok(None, pos + 1)
      else
        match QueryRead(lines, pos + 1)
        case Crashed(c) => Crashed(c)
        case Ok(q, n) =>
          if q == map[] && n >= |lines| then Crashed(EndOfInput)
          else if q == map[] && !Confirms(lines[n]) then Ok(None, n + 1)
          else
            match UpdateLoop(lines, if q == map[] then n + 1 else n, map[])
            case Crashed(c) => Crashed(c)
            case Ok(u, k) =>
              if u == map[] then Ok(None, k)
              else Ok(Some(if selection == "1" then UpdateOne(q, u) else UpdateMany(q, u)), k)
  }

  /** `delete_data` (lines 227-262) from its option line at `pos`. */
  function DeleteAction(lines: seq<string>, pos: nat): (r: Read<Option<Call>>)
    ensures r.Ok? ==> pos < r.next <= |lines|
  {
    if pos >= |lines| then Crashed(EndOfInput)
    else
      var selection := lines[pos];
      if selection != "1" && selection != "2" then Ok(None, pos + 1)
      else
        match QueryRead(lines, pos + 1)
        case Crashed(c) => Crashed(c)
        case Ok(q, n) =>
          if q == map[] && n >= |lines| then Crashed(EndOfInput)
          else if q == map[] && !Confirms(lines[n]) then Ok(None, n + 1)
          else Ok(Some(if selection == "1" then DeleteOne(q) else DeleteMany(q)), if q == map[] then n + 1 else n)
  }

  /** Insert-one stores the entered text unchanged and never an empty
      document; insert-many never sends an empty list nor an empty document. */
  lemma InsertGuard(lines: seq<string>, pos: nat)
    requires InsertAction(lines, pos).Ok? && InsertAction(lines, pos).value.Some?
    ensures var c := InsertAction(lines, pos).value.value;
      && Guarded(c)
      && (c.InsertOne? || c.InsertMany?)
      && (c.InsertOne? ==> lines[pos] == "1" && c.document == FieldMap(ScanEntries(lines, pos + 1).value))
  {
    if lines[pos] == "2" {
      DocumentsLoopNonEmpty(lines, pos + 1, []);
    }
  }

  /** An empty document is never inserted: when the first field line is
      already the sentinel, insert-one issues nothing. */
  lemma InsertOneEmpty(lines: seq<string>, pos: nat)
    requires pos + 1 < |lines| && lines[pos] == "1" && IsDone(lines[pos + 1])
    ensures InsertAction(lines, pos) == Ok(None, pos + 2)
  {
    FieldMapEmpty([]);
  }

  /** Read-many's limit is the entered line parsed by `int()`, 5 when that
      fails; read-all goes out only after a `y`. */
  lemma ReadGuard(lines: seq<string>, pos: nat)
    requires ReadAction(lines, pos).Ok?
    ensures var r := ReadAction(lines, pos);
      && (r.value.Some? && r.value.value.FindMany? ==>
            lines[pos] == "2" && r.value.value.limit == ParseLimit(lines[r.next - 1]))
      && (r.value.Some? && r.value.value.FindAll? ==> lines[pos] == "3" && Confirms(lines[r.next - 1]))
      && (lines[pos] == "3" ==> (r.value.Some? <==> Confirms(lines[r.next - 1])))
  {
    ReadManyLimit(lines, pos);
    ReadAllConfirmed(lines, pos);
  }

  lemma ReadManyLimit(lines: seq<string>, pos: nat)
    requires ReadAction(lines, pos).Ok?
    ensures var r := ReadAction(lines, pos);
      r.value.Some? && r.value.value.FindMany? ==>
        lines[pos] == "2" && r.value.value.limit == ParseLimit(lines[r.next - 1])
  {
    if lines[pos] == "2" {
      var q := QueryRead(lines, pos + 1);
      if q.Ok? && q.next < |lines| {
        assert ReadAction(lines, pos) == Ok(Some(FindMany(q.value, ParseLimit(lines[q.next]))), q.next + 1);
      }
    }
  }

  lemma ReadAllConfirmed(lines: seq<string>, pos: nat)
    requires ReadAction(lines, pos).Ok?
    ensures var r := ReadAction(lines, pos);
      && (r.value.Some? && r.value.value.FindAll? ==> lines[pos] == "3" && Confirms(lines[r.next - 1]))
      && (lines[pos] == "3" ==> (r.value.Some? <==> Confirms(lines[r.next - 1])))
  {
  }

  /** The update guards: an update goes out only with a non-empty, well
      formed update document; with an empty query, only if the line after
      the empty query was `y`; and with an empty query and any other answer,
      nothing goes out. */
  lemma UpdateGuard(lines: seq<string>, pos: nat)
    requires UpdateAction(lines, pos).Ok? && UpdateAction(lines, pos).value.Some?
    ensures var c := UpdateAction(lines, pos).value.value;
      && (c.UpdateOne? || c.UpdateMany?)
      && Guarded(c)
      && (c.query == map[] ==> pos + 2 < |lines| && IsDone(lines[pos + 1]) && Confirms(lines[pos + 2]))
  {
    UpdateSendsWellFormed(lines, pos);
    UpdateConfirmed(lines, pos);
  }

  lemma UpdateSendsWellFormed(lines: seq<string>, pos: nat)
    requires UpdateAction(lines, pos).Ok? && UpdateAction(lines, pos).value.Some?
    ensures var c := UpdateAction(lines, pos).value.value;
      (c.UpdateOne? || c.UpdateMany?) && c.update != map[] && WellFormed(c.update)
  {
    var q := QueryRead(lines, pos + 1);
    UpdateLoopWellFormed(lines, if q.value == map[] then q.next + 1 else q.next, map[]);
  }

  lemma UpdateConfirmed(lines: seq<string>, pos: nat)
    requires UpdateAction(lines, pos).Ok? && UpdateAction(lines, pos).value.Some?
    ensures var c := UpdateAction(lines, pos).value.value;
      (c.UpdateOne? || c.UpdateMany?) &&
      (c.query == map[] ==> pos + 2 < |lines| && IsDone(lines[pos + 1]) && Confirms(lines[pos + 2]))
  {
    if QueryRead(lines, pos + 1).value == map[] {
      EmptyQueryShape(lines, pos + 1);
    }
  }

  /** A query is empty exactly when its first key line is the sentinel. */
  lemma EmptyQueryShape(lines: seq<string>, pos: nat)
    requires QueryRead(lines, pos).Ok?
    ensures QueryRead(lines, pos).value == map[] <==> IsDone(lines[pos])
    ensures QueryRead(lines, pos).value == map[] ==> QueryRead(lines, pos).next == pos + 1
  {
    var es := ScanEntries(lines, pos).value;
    FieldMapEmpty(es);
    ScanEntriesShape(lines, pos);
  }

  lemma UpdateRefused(lines: seq<string>, pos: nat)
    requires pos + 2 < |lines| && (lines[pos] == "1" || lines[pos] == "2")
    requires IsDone(lines[pos + 1]) && !Confirms(lines[pos + 2])
    ensures UpdateAction(lines, pos) == Ok(None, pos + 3)
  {
    FieldMapEmpty([]);
  }

  /** The delete guards: with an empty query a delete goes out only after
      `y`, and with any other answer nothing goes out. */
  lemma DeleteGuard(lines: seq<string>, pos: nat)
    requires DeleteAction(lines, pos).Ok? && DeleteAction(lines, pos).value.Some?
    ensures var c := DeleteAction(lines, pos).value.value;
      && (c.DeleteOne? || c.DeleteMany?)
      && (c.query == map[] ==> pos + 2 < |lines| && IsDone(lines[pos + 1]) && Confirms(lines[pos + 2]))
  {
    if QueryRead(lines, pos + 1).value == map[] {
      EmptyQueryShape(lines, pos + 1);
    }
  }

  lemma DeleteRefused(lines: seq<string>, pos: nat)
    requires pos + 2 < |lines| && (lines[pos] == "1" || lines[pos] == "2")
    requires IsDone(lines[pos + 1]) && !Confirms(lines[pos + 2])
    ensures DeleteAction(lines, pos) == Ok(None, pos + 3)
  {
    FieldMapEmpty([]);
  }

  /** What read-many does once the store has shown `count` documents and
      reports `total` matches. */
  datatype FollowUp = FollowUp(calls: seq<Call>, showsPartial: bool)

  /** Lines 126-131: nothing more when none were shown; otherwise a
      count_documents request and, when more match than were shown, the
      "Showing count of total" notice. */
  function ReadManyFollowUp(q: Query, count: nat, total: nat): (r: FollowUp)
    ensures r.showsPartial ==> CountDocuments(q) in r.calls
    ensures r.showsPartial <==> 0 < count < total
    ensures r.calls == [] <==> count == 0
  {
    if count == 0 then FollowUp([], false)
    else FollowUp([CountDocuments(q)], total > count)
  }

  /** The main menu's choices (lines 266-281). */
  datatype Choice = InsertChoice | ReadChoice | UpdateChoice | DeleteChoice | ExitChoice | InvalidChoice

  function Dispatch(selection: string): Choice
  {
    if selection == "1" then InsertChoice
    else if selection == "2" then ReadChoice
    else if selection == "3" then UpdateChoice
    else if selection == "4" then DeleteChoice
    else if selection == "5" then ExitChoice
    else InvalidChoice
  }

  function MenuAction(choice: Choice, lines: seq<string>, pos: nat): (r: Read<Option<Call>>)
    requires choice != ExitChoice && choice != InvalidChoice
    ensures r.Ok? ==> pos < r.next <= |lines|
  {
    match choice
    case InsertChoice => InsertAction(lines, pos)
    case ReadChoice => ReadAction(lines, pos)
    case UpdateChoice => UpdateAction(lines, pos)
    case DeleteChoice => DeleteAction(lines, pos)
  }

  /** Every request a menu action issues keeps the write guards, and none is `Close`. */
  lemma MenuActionGuarded(choice: Choice, lines: seq<string>, pos: nat)
    requires choice != ExitChoice && choice != InvalidChoice
    requires MenuAction(choice, lines, pos).Ok? && MenuAction(choice, lines, pos).value.Some?
    ensures Guarded(MenuAction(choice, lines, pos).value.value)
    ensures !MenuAction(choice, lines, pos).value.value.Close?
  {
    match choice
    case InsertChoice => InsertGuard(lines, pos);
    case ReadChoice =>
    case UpdateChoice => UpdateGuard(lines, pos);
    case DeleteChoice => DeleteGuard(lines, pos);
  }

  datatype Ending = Exited | Aborted(crash: Crash)

  /** The requests issued, in order, and how the run ended. */
  datatype Session = Session(calls: seq<Call>, ending: Ending)

  /** `main_acv` from line `pos` on, having issued `calls`. */
  function SessionFrom(lines: seq<string>, pos: nat, calls: seq<Call>): Session
    decreases |lines| - pos
  {
    if pos >= |lines| then Session(calls, Aborted(EndOfInput))
    else
      var choice := Dispatch(lines[pos]);
      if choice == ExitChoice then Session(calls + [Close], Exited)
      else if choice == InvalidChoice then SessionFrom(lines, pos + 1, calls)
      else
        match MenuAction(choice, lines, pos + 1)
        case Crashed(c) => Session(calls, Aborted(c))
        case Ok(c, n) => SessionFrom(lines, n, calls + Issued(c))
  }

  /** No request in the log breaks the write guards, and none is `Close`. */
  predicate OpenLog(calls: seq<Call>)
  {
    forall i :: 0 <= i < |calls| ==> Guarded(calls[i]) && !calls[i].Close?
  }

  /** Requests already issued stay issued, in order. */
  lemma {:induction false} SessionPrefix(lines: seq<string>, pos: nat, calls: seq<Call>)
    ensures calls <= SessionFrom(lines, pos, calls).calls
    decreases |lines| - pos
  {
    if pos < |lines| {
      var choice := Dispatch(lines[pos]);
      if choice == InvalidChoice {
        SessionPrefix(lines, pos + 1, calls);
      } else if choice != ExitChoice {
        var step := MenuAction(choice, lines, pos + 1);
        if step.Ok? {
          SessionPrefix(lines, step.next, calls + Issued(step.value));
        }
      }
    }
  }

  /** Every request keeps the write guards, and `Close` is issued once,
      last, exactly when the operator chose Exit. */
  lemma {:induction false} SessionLog(lines: seq<string>, pos: nat, calls: seq<Call>)
    requires OpenLog(calls)
    ensures var s := SessionFrom(lines, pos, calls);
      && (s.ending == Exited ==>
            |s.calls| > 0 && s.calls[|s.calls| - 1] == Close && OpenLog(s.calls[..|s.calls| - 1]))
      && (s.ending != Exited ==> OpenLog(s.calls))
    decreases |lines| - pos
  {
    if pos < |lines| {
      var choice := Dispatch(lines[pos]);
      if choice == InvalidChoice {
        SessionLog(lines, pos + 1, calls);
      } else if choice == ExitChoice {
        assert SessionFrom(lines, pos, calls) == Session(calls + [Close], Exited);
        assert (calls + [Close])[..|calls|] == calls;
      } else {
        var step := MenuAction(choice, lines, pos + 1);
        if step.Ok? {
          if step.value.Some? {
            MenuActionGuarded(choice, lines, pos + 1);
          }
          ExtendGuarded(calls, step.value);
          assert SessionFrom(lines, pos, calls) == SessionFrom(lines, step.next, calls + Issued(step.value));
          SessionLog(lines, step.next, calls + Issued(step.value));
        }
      }
    }
  }

  /** A whole run issues only guarded requests, and `Close` only as its last
      request, exactly when it ends by Exit. */
  lemma SessionGuarded(lines: seq<string>)
    ensures var s := SessionFrom(lines, 0, []);
      && (forall i :: 0 <= i < |s.calls| ==> Guarded(s.calls[i]))
      && (forall i :: 0 <= i < |s.calls| && s.calls[i].Close? ==> i == |s.calls| - 1)
      && (s.ending == Exited <==> |s.calls| > 0 && s.calls[|s.calls| - 1] == Close)
  {
    SessionLog(lines, 0, []);
    var s := SessionFrom(lines, 0, []);
    if s.ending == Exited {
      var init := s.calls[..|s.calls| - 1];
      forall i | 0 <= i < |s.calls| - 1 ensures s.calls[i] == init[i] && !s.calls[i].Close? {
        assert !init[i].Close?;
      }
    }
  }

  lemma ExtendGuarded(calls: seq<Call>, c: Option<Call>)
    requires OpenLog(calls)
    requires c.Some? ==> Guarded(c.value) && !c.value.Close?
    ensures OpenLog(calls + Issued(c))
  {
  }

  /** `insert_data` (lines 25-74). */
  method InsertData(lines: seq<string>, pos: nat) returns (out: Read<Option<Call>>)
    ensures out == InsertAction(lines, pos)
  {
    if pos >= |lines| { return Crashed(EndOfInput); }
    var selection := lines[pos];
    if selection == "1" {
      var document := ReadDocument(lines, pos + 1);
      if document.Crashed? { return Crashed(document.crash); }
      if document.value != map[] {
        return Ok(Some(InsertOne(document.value)), document.next);
      }
      return Ok(None, document.next);
    } else if selection == "2" {
      var documents := ReadDocuments(lines, pos + 1);
      if documents.Crashed? { return Crashed(documents.crash); }
      if documents.value != [] {
        return Ok(Some(InsertMany(documents.value)), documents.next);
      }
      return Ok(None, documents.next);
    }
    return Ok(None, pos + 1);
  }

  /** `read_data` (lines 76-148). */
  method ReadData(lines: seq<string>, pos: nat) returns (out: Read<Option<Call>>)
    ensures out == ReadAction(lines, pos)
  {
    if pos >= |lines| { return Crashed(EndOfInput); }
    var selection := lines[pos];
    if selection != "1" && selection != "2" && selection != "3" { return Ok(None, pos + 1); }
    var query := ReadQuery(lines, pos + 1);
    if query.Crashed? { return Crashed(query.crash); }
    var n := query.next;
    if selection == "1" { return Ok(Some(FindOne(query.value)), n); }
    if n == |lines| { return Crashed(EndOfInput); }
    if selection == "2" {
      var limit := ParseLimit(lines[n]);
      return Ok(Some(FindMany(query.value, limit)), n + 1);
    }
    var confirm := Lower(lines[n]);
    if confirm == "y" { return Ok(Some(FindAll(query.value)), n + 1); }
    return Ok(None, n + 1);
  }

  /** `update_data` (lines 150-225). */
  method UpdateData(lines: seq<string>, pos: nat) returns (out: Read<Option<Call>>)
    ensures out == UpdateAction(lines, pos)
  {
    if pos >= |lines| { return Crashed(EndOfInput); }
    var selection := lines[pos];
    if selection != "1" && selection != "2" { return Ok(None, pos + 1); }
    var query := ReadQuery(lines, pos + 1);
    if query.Crashed? { return Crashed(query.crash); }
    var n := query.next;
    if query.value == map[] {
      if n == |lines| { return Crashed(EndOfInput); }
      var confirm := Lower(lines[n]);
      if confirm != "y" { return Ok(None, n + 1); }
      n := n + 1;
    }
    var update := BuildUpdate(lines, n);
    if update.Crashed? { return Crashed(update.crash); }
    if update.value == map[] { return Ok(None, update.next); }
    if selection == "1" {
      return Ok(Some(UpdateOne(query.value, update.value)), update.next);
    }
    return Ok(Some(UpdateMany(query.value, update.value)), update.next);
  }

  /** `delete_data` (lines 227-262). */
  method DeleteData(lines: seq<string>, pos: nat) returns (out: Read<Option<Call>>)
    ensures out == DeleteAction(lines, pos)
  {
    if pos >= |lines| { return Crashed(EndOfInput); }
    var selection := lines[pos];
    if selection != "1" && selection != "2" { return Ok(None, pos + 1); }
    var query := ReadQuery(lines, pos + 1);
    if query.Crashed? { return Crashed(query.crash); }
    var n := query.next;
    if query.value == map[] {
      if n == |lines| { return Crashed(EndOfInput); }
      var confirm := Lower(lines[n]);
      if confirm != "y" { return Ok(None, n + 1); }
      n := n + 1;
    }
    if selection == "1" { return Ok(Some(DeleteOne(query.value)), n); }
    return Ok(Some(DeleteMany(query.value)), n);
  }

  /** `main_acv` (lines 264-281) over the whole input. */
  method RunSession(lines: seq<string>) returns (s: Session)
    ensures s == SessionFrom(lines, 0, [])
  {
    var calls: seq<Call> := [];
    var i := 0;
    while true
      invariant i <= |lines|
      invariant SessionFrom(lines, 0, []) == SessionFrom(lines, i, calls)
      decreases |lines| - i
    {
      if i == |lines| {
        s := Session(calls, Aborted(EndOfInput));
        break;
      }
      var choice := Dispatch(lines[i]);
      if choice == ExitChoice {
        s := Session(calls + [Close], Exited);
        break;
      }
      if choice == InvalidChoice {
        i := i + 1;
        continue;
      }
      var step: Read<Option<Call>>;
      if choice == InsertChoice {
        step := InsertData(lines, i + 1);
      } else if choice == ReadChoice {
        step := ReadData(lines, i + 1);
      } else if choice == UpdateChoice {
        step := UpdateData(lines, i + 1);
      } else {
        step := DeleteData(lines, i + 1);
      }
      if step.Crashed? {
        s := Session(calls, Aborted(step.crash));
        break;
      }
      calls := calls + Issued(step.value);
      i := step.next;
    }
  }
}
