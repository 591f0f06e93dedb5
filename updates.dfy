/** The update directives of `update_data`: `field+=number` goes to `$inc`,
    `field=value` to `$set`, anything else is rejected, and the directives
    are read until the sentinel `done`. */
module Updates {
  import opened Outcomes
  import opened Text
  import opened Scalars
  import opened Builders

  /** The update document: operator names mapped to field/value maps. */
  type UpdateDoc = map<string, map<string, Scalar>>

  const IncOp := "$inc"
  const SetOp := "$set"

  /** What one directive line asks for. */
  datatype Directive =
    | Increment(field: string, amount: Scalar)
    | BadNumber(field: string, text: string)
    | Assign(field: string, value: Scalar)
    | Unrecognized
    | TooManyIncrements

  /** Lines 189-212 for one line: `+=` is tested before `=`; a `+=` line is
      split on every `+=` and must give exactly two pieces; a `=` line is split
      on its first `=`; both sides are stripped. */
  function ParseDirective(line: string): Directive
  {
    if Contains(line, "+=") then
      var parts := Split(line, "+=");
      if |parts| != 2 then TooManyIncrements
      else
        var field := Strip(parts[0]);
        var text := Strip(parts[1]);
        match IncOperand(text)
        case Some(n) => Increment(field, n)
        case None => BadNumber(field, text)
    else if Contains(line, "=") then
      var parts := SplitOnce(line, "=");
      Assign(Strip(parts[0]), Coerce(Strip(parts[1])))
    else Unrecognized
  }

  /** The directives that leave the update document as it was. */
  predicate Inert(d: Directive)
  {
    d.BadNumber? || d.Unrecognized?
  }

  /** The fields already grouped under operator `op`. */
  function Group(u: UpdateDoc, op: string): map<string, Scalar>
  {
    if op in u then u[op] else map[]
  }

  /** The effect of one accepted directive on the update document. */
  function Apply(u: UpdateDoc, d: Directive): UpdateDoc
  {
    match d
    case Increment(f, n) => u[IncOp := Group(u, IncOp)[f := n]]
    case Assign(f, v) => u[SetOp := Group(u, SetOp)[f := v]]
    case _ => u
  }

  /** Only `$inc` and `$set` appear at the top, and neither is ever an empty map. */
  predicate WellFormed(u: UpdateDoc)
  {
    && u.Keys <= {IncOp, SetOp}
    && forall op :: op in u ==> u[op] != map[]
  }

  /** A `+=` line is always an increment, even though it also contains `=`:
      a second `+=` is the unpack error, and otherwise the field is the
      stripped text before the `+=` and the operand the stripped text after it. */
  lemma IncrementDirective(line: string)
    requires Contains(line, "+=")
    ensures var k := Find(line, "+=").value;
      var field := Strip(line[..k]);
      var text := Strip(line[k + 2..]);
      && (ParseDirective(line) == TooManyIncrements <==> Contains(line[k + 2..], "+="))
      && (!Contains(line[k + 2..], "+=") ==>
            ParseDirective(line) == match IncOperand(text)
              case Some(n) => Increment(field, n)
              case None => BadNumber(field, text))
  {
    var k := Find(line, "+=").value;
    var rest := line[k + 2..];
    assert Split(line, "+=") == [line[..k]] + Split(rest, "+=");
    if !Contains(rest, "+=") {
      assert Split(rest, "+=") == [rest];
    } else {
      var j := Find(rest, "+=").value;
      assert |Split(rest, "+=")| >= 2;
    }
  }

  /** A line without `+=` but with `=` is cut at its first `=`, so the
      field holds no `=` while the value may; the value is coerced. */
  lemma AssignDirective(line: string)
    requires !Contains(line, "+=") && Contains(line, "=")
    ensures var k := Find(line, "=").value;
      && line == line[..k] + "=" + line[k + 1..]
      && !Contains(line[..k], "=")
      && ParseDirective(line) == Assign(Strip(line[..k]), Coerce(Strip(line[k + 1..])))
  {
    SplitOnceJoin(line, "=");
  }

  /** Exactly the lines without any `=` are rejected, and an assignment never
      comes from a line holding `+=`. */
  lemma DirectiveKinds(line: string)
    ensures ParseDirective(line) == Unrecognized <==> !Contains(line, "=")
    ensures ParseDirective(line).Assign? ==> !Contains(line, "+=")
  {
    FindFirst(line, "+=");
    FindFirst(line, "=");
    if Contains(line, "+=") {
      var k := Find(line, "+=").value;
      assert line[k..k + 2] == "+=";
      assert line[k + 1..k + 2] == "=";
      assert OccursAt(line, "=", k + 1);
    }
  }

  /** `a=b=c` sets field `a` to the text `b=c`. */
  lemma AssignExample()
    ensures ParseDirective("a=b=c") == Assign("a", Str("b=c"))
  {
    var line := "a=b=c";
    AssignExampleCut();
    AssignDirective(line);
    assert line[..1] == "a" && line[2..] == "b=c";
    StripUnspaced("a");
    StripUnspaced("b=c");
    NotDecimal("b=c", 1);
  }

  lemma AssignExampleCut()
    ensures !Contains("a=b=c", "+=") && Find("a=b=c", "=") == Some(1)
  {
    var line := "a=b=c";
    OccursAtChar(line, '=', 0);
    OccursAtChar(line, '=', 1);
    forall j: nat ensures !OccursAt(line, "+=", j) {
      OccursAtPair(line, '+', '=', j);
    }
  }

  /** `score+=5` increments `score` by the integer 5. */
  lemma IncrementExample()
    ensures ParseDirective("score+=5") == Increment("score", Int(5))
  {
    var line := "score+=5";
    IncrementExampleCut();
    assert line[..5] == "score" && line[7..] == "5";
    IncrementDirective(line);
    StripUnspaced("score");
    StripUnspaced("5");
    CoerceNatText(5);
    assert NatToDigits(5) == "5";
    IncOperandAgrees("5");
  }

  lemma IncrementExampleCut()
    ensures Find("score+=5", "+=") == Some(5) && !Contains("5", "+=")
  {
    var line := "score+=5";
    assert OccursAt(line, "+=", 5) by { assert line[5..7] == "+="; }
    forall j: nat | j < 5 ensures !OccursAt(line, "+=", j) {
      OccursAtPair(line, '+', '=', j);
    }
    FoundAt(line, "+=", 5);
    forall j: nat ensures !OccursAt("5", "+=", j) {
      OccursAtPair("5", '+', '=', j);
    }
    AbsentNotFound("5", "+=");
  }

  /** A line with neither `+=` nor `=` is rejected. */
  lemma UnrecognizedExample()
    ensures ParseDirective("score") == Unrecognized
  {
    UnrecognizedExampleCut();
  }

  lemma UnrecognizedExampleCut()
    ensures !Contains("score", "+=") && !Contains("score", "=")
  {
    var line := "score";
    forall j: nat ensures !OccursAt(line, "+=", j) && !OccursAt(line, "=", j) {
      OccursAtPair(line, '+', '=', j);
      OccursAtChar(line, '=', j);
    }
    AbsentNotFound(line, "+=");
    AbsentNotFound(line, "=");
  }

  /** A second `+=` on one line is the unpack error. */
  lemma TwoIncrementsExample()
    ensures ParseDirective("x+=1+=2") == TooManyIncrements
  {
    var line := "x+=1+=2";
    assert OccursAt(line, "+=", 1) by { assert line[1..3] == "+="; }
    assert !OccursAt(line, "+=", 0) by { assert line[0] != '+'; }
    assert FindFrom(line, "+=", 1) == Some(1);
    assert Find(line, "+=") == Some(1);
    var rest := line[3..];
    assert rest == "1+=2";
    assert OccursAt(rest, "+=", 1) by { assert rest[1..3] == "+="; }
    FindFirst(rest, "+=");
    IncrementDirective(line);
  }

  /** Applying a directive changes only the field it names under its own
      operator, and an inert directive changes nothing. */
  lemma ApplyFrame(u: UpdateDoc, d: Directive)
    ensures Inert(d) || d.TooManyIncrements? ==> Apply(u, d) == u
    ensures d.Increment? ==>
      && Apply(u, d).Keys == u.Keys + {IncOp}
      && Apply(u, d)[IncOp][d.field] == d.amount
      && (forall op :: op in u && op != IncOp ==> Apply(u, d)[op] == u[op])
      && (forall f :: f != d.field ==> (f in Apply(u, d)[IncOp] <==> f in Group(u, IncOp)))
      && (forall f :: f != d.field && f in Group(u, IncOp) ==> Apply(u, d)[IncOp][f] == Group(u, IncOp)[f])
    ensures d.Assign? ==>
      && Apply(u, d).Keys == u.Keys + {SetOp}
      && Apply(u, d)[SetOp][d.field] == d.value
      && (forall op :: op in u && op != SetOp ==> Apply(u, d)[op] == u[op])
      && (forall f :: f != d.field ==> (f in Apply(u, d)[SetOp] <==> f in Group(u, SetOp)))
      && (forall f :: f != d.field && f in Group(u, SetOp) ==> Apply(u, d)[SetOp][f] == Group(u, SetOp)[f])
  {
  }

  /** Applying any directive keeps the update document well formed. */
  lemma ApplyWellFormed(u: UpdateDoc, d: Directive)
    requires WellFormed(u)
    ensures WellFormed(Apply(u, d))
  {
    match d
    case Increment(f, n) =>
      assert f in Apply(u, d)[IncOp];
    case Assign(f, v) =>
      assert f in Apply(u, d)[SetOp];
    case _ =>
  }

  /** The update loop of lines 184-212 from line `pos` on, with the
      document built so far. */
  function UpdateLoop(lines: seq<string>, pos: nat, u: UpdateDoc): (r: Read<UpdateDoc>)
    ensures r.Ok? ==> pos < r.next <= |lines|
    decreases |lines| - pos, 1
  {
    if pos >= |lines| then Crashed(EndOfInput)
    else if IsDone(lines[pos]) then Ok(u, pos + 1)
    else UpdateLine(lines, pos, u)
  }

  /** One directive line that is not the sentinel: a second `+=` stops the
      loop with the unpack error; any other directive is applied and the
      loop goes on. */
  function UpdateLine(lines: seq<string>, pos: nat, u: UpdateDoc): (r: Read<UpdateDoc>)
    requires pos < |lines|
    ensures r.Ok? ==> pos < r.next <= |lines|
    decreases |lines| - pos, 0
  {
    var d := ParseDirective(lines[pos]);
    if d.TooManyIncrements? then Crashed(UnpackError(lines[pos]))
    else UpdateLoop(lines, pos + 1, Apply(u, d))
  }

  lemma UpdateLoopStep(lines: seq<string>, pos: nat, u: UpdateDoc)
    requires pos < |lines| && !IsDone(lines[pos])
    ensures var d := ParseDirective(lines[pos]);
      UpdateLoop(lines, pos, u) ==
        if d.TooManyIncrements? then Crashed(UnpackError(lines[pos]))
        else UpdateLoop(lines, pos + 1, Apply(u, d))
  {
  }

  /** The loop stops at the first sentinel line, and every line before it
      was a directive the parser could split. */
  lemma {:induction false} UpdateLoopShape(lines: seq<string>, pos: nat, u: UpdateDoc)
    requires UpdateLoop(lines, pos, u).Ok?
    ensures var n := UpdateLoop(lines, pos, u).next;
      && IsDone(lines[n - 1])
      && forall i :: pos <= i < n - 1 ==> !IsDone(lines[i]) && !ParseDirective(lines[i]).TooManyIncrements?
    decreases |lines| - pos
  {
    if !IsDone(lines[pos]) {
      var d := ParseDirective(lines[pos]);
      UpdateLoopStep(lines, pos, u);
      UpdateLoopShape(lines, pos + 1, Apply(u, d));
    }
  }

  /** The loop keeps the update document well formed. */
  lemma {:induction false} UpdateLoopWellFormed(lines: seq<string>, pos: nat, u: UpdateDoc)
    requires WellFormed(u) && UpdateLoop(lines, pos, u).Ok?
    ensures WellFormed(UpdateLoop(lines, pos, u).value)
    decreases |lines| - pos
  {
    if !IsDone(lines[pos]) {
      var d := ParseDirective(lines[pos]);
      UpdateLoopStep(lines, pos, u);
      ApplyWellFormed(u, d);
      UpdateLoopWellFormed(lines, pos + 1, Apply(u, d));
    }
  }

  lemma ApplyEmpty(u: UpdateDoc, d: Directive)
    requires !d.TooManyIncrements?
    ensures Apply(u, d) == map[] <==> u == map[] && Inert(d)
  {
    match d
    case Increment(f, n) => assert IncOp in Apply(u, d);
    case Assign(f, v) => assert SetOp in Apply(u, d);
    case _ =>
  }

  /** The update document comes out empty exactly when it started empty and
      every directive line was inert (a bad number or no `=` at all). */
  lemma {:induction false} UpdateLoopEmpty(lines: seq<string>, pos: nat, u: UpdateDoc)
    requires UpdateLoop(lines, pos, u).Ok?
    ensures var r := UpdateLoop(lines, pos, u);
      r.value == map[] <==> u == map[] && forall i :: pos <= i < r.next - 1 ==> Inert(ParseDirective(lines[i]))
    decreases |lines| - pos
  {
    if !IsDone(lines[pos]) {
      var d := ParseDirective(lines[pos]);
      UpdateLoopStep(lines, pos, u);
      ApplyEmpty(u, d);
      UpdateLoopEmpty(lines, pos + 1, Apply(u, d));
    }
  }

  /** Lines 197-199 and 208-210: fetch the operator's group, or a fresh one,
      and store the field in it. */
  method Record(update: UpdateDoc, directive: Directive) returns (next: UpdateDoc)
    ensures next == Apply(update, directive)
  {
    next := update;
    match directive {
      case Increment(field, amount) =>
        var inc := if IncOp in update then update[IncOp] else map[];
        next := update[IncOp := inc[field := amount]];
      case Assign(field, value) =>
        var setGroup := if SetOp in update then update[SetOp] else map[];
        next := update[SetOp := setGroup[field := value]];
      case _ =>
    }
  }

  /** The directive loop of `update_data` (lines 179-212). */
  method BuildUpdate(lines: seq<string>, pos: nat) returns (out: Read<UpdateDoc>)
    ensures out == UpdateLoop(lines, pos, map[])
    ensures out.Ok? ==> WellFormed(out.value)
  {
    var update: UpdateDoc := map[];
    var i := pos;
    if i > |lines| { return Crashed(EndOfInput); }
    while true
      invariant pos <= i <= |lines|
      invariant UpdateLoop(lines, pos, map[]) == UpdateLoop(lines, i, update)
      decreases |lines| - i
    {
      if i == |lines| { return Crashed(EndOfInput); }
      var operation := lines[i];
      if IsDone(operation) {
        UpdateLoopWellFormed(lines, pos, map[]);
        return Ok(update, i + 1);
      }
      var directive := ParseDirective(operation);
      UpdateLoopStep(lines, i, update);
      if directive.TooManyIncrements? { return Crashed(UnpackError(operation)); }
      update := Record(update, directive);
      i := i + 1;
    }
  }
}
