/** The `$Comp` / `$EndComp` block parser of kicad2bom.py, run over the
    stripped lines of each schematic file. */
module Parser {
  import opened Wrappers
  import opened Records
  import Tokenizer

  /** The exceptions the parse loop can raise. */
  datatype ParseError =
    | EndWithoutComp  // `comp.copy()` while `comp` is still None: `$EndComp` before any `$Comp`
    | MissingToken    // `line[k]` past the last token of a line inside a block

  /** The loop variables `inCompDef` and `comp`, and the records sealed so far. */
  datatype State = State(inCompDef: bool, comp: Option<Component>, records: seq<Component>)

  const Initial := State(false, None, [])

  /** Inside a block there is always a record being built. */
  predicate Valid(st: State)
  {
    st.inCompDef ==> st.comp.Some?
  }

  predicate IsMarker(line: string)
  {
    line == "$Comp" || line == "$EndComp"
  }

  /** The record field an `F` line with field index `k` sets. */
  function FieldAt(k: string): Option<Field>
  {
    if k == "0" then Some(Ref)
    else if k == "1" then Some(Value)
    else if k == "2" then Some(Footprint)
    else if k == "3" then Some(Url)
    else None
  }

  /** The tokens of a line inside a block are too few for the branch it takes:
      no token at all, `L` without a name, or `F 0`..`F 3` without a value. */
  predicate TooShort(toks: seq<string>): (r: bool)
    ensures |toks| == 0 ==> r
    ensures |toks| >= 3 ==> !r
  {
    || |toks| == 0
    || (toks[0] == "L" && |toks| < 2)
    || (toks[0] == "F" && (|toks| < 2 || (FieldAt(toks[1]).Some? && |toks| < 3)))
  }

  /** The field dispatch of one line inside a block. */
  function Apply(c: Component, toks: seq<string>): (r: Component)
    requires !TooShort(toks)
    ensures r.schematic == c.schematic && r.multiplier == c.multiplier
    ensures r.supplier == c.supplier && r.supplierRef == c.supplierRef
    ensures toks[0] != "L" && toks[0] != "F" ==> r == c
  {
    if toks[0] == "L" then c.(name := toks[1])
    else if toks[0] == "F" then
      if toks[1] == "0" then c.(ref := toks[2])
      else if toks[1] == "1" then c.(value := toks[2])
      else if toks[1] == "2" then c.(footprint := toks[2])
      else if toks[1] == "3" then c.(url := toks[2])
      else c
    else c
  }

  /** One iteration of the loop over the lines of a file. */
  function Step(schematic: string, multiplier: int, st: State, line: string): (r: Result<State, ParseError>)
    requires Valid(st)
    ensures r.Ok? ==> Valid(r.value)
  {
    if line == "$Comp" then Ok(State(true, Some(Fresh(schematic, multiplier)), st.records))
    else if line == "$EndComp" then
      if st.comp.None? then Err(EndWithoutComp)
      else Ok(State(false, st.comp, st.records + [st.comp.value]))
    else if st.inCompDef then
      var toks := Tokenizer.Tokens(line);
      if TooShort(toks) then Err(MissingToken)
      else Ok(st.(comp := Some(Apply(st.comp.value, toks))))
    else Ok(st)
  }

  /** The loop over `lines`, from the outcome `r0` of the lines before them;
      an exception ends it. */
  function Run(schematic: string, multiplier: int, r0: Result<State, ParseError>, lines: seq<string>): (r: Result<State, ParseError>)
    requires r0.Ok? ==> Valid(r0.value)
    ensures r.Ok? ==> Valid(r.value)
  {
    if lines == [] then r0
    else
      match Run(schematic, multiplier, r0, lines[..|lines| - 1])
      case Err(e) => Err(e)
      case Ok(st) => Step(schematic, multiplier, st, lines[|lines| - 1])
  }

  /** The records one file contributes, or the exception it raises. */
  function Parse(schematic: string, multiplier: int, lines: seq<string>): Result<seq<Component>, ParseError>
  {
    match Run(schematic, multiplier, Ok(Initial), lines)
    case Ok(st) => Ok(st.records)
    case Err(e) => Err(e)
  }

  method ParseFile(schematic: string, multiplier: int, lines: seq<string>) returns (r: Result<seq<Component>, ParseError>)
    ensures r == Parse(schematic, multiplier, lines)
  {
    var inCompDef := false;
    var comp: Option<Component> := None;
    var components: seq<Component> := [];
    for i := 0 to |lines|
      invariant inCompDef ==> comp.Some?
      invariant Run(schematic, multiplier, Ok(Initial), lines[..i]) == Ok(State(inCompDef, comp, components))
    {
      var line := lines[i];
      assert lines[..i + 1][..i] == lines[..i];
      if line == "$Comp" {
        comp := Some(Fresh(schematic, multiplier));
        inCompDef := true;
      } else if line == "$EndComp" {
        if comp.None? {
          ErrorPersists(schematic, multiplier, Ok(Initial), lines, i + 1);
          return Err(EndWithoutComp);
        }
        components := components + [comp.value];
        inCompDef := false;
      } else if inCompDef {
        var toks := Tokenizer.Split(line);
        if TooShort(toks) {
          ErrorPersists(schematic, multiplier, Ok(Initial), lines, i + 1);
          return Err(MissingToken);
        }
        var c := comp.value;
        if toks[0] == "L" {
          c := c.(name := toks[1]);
        } else if toks[0] == "F" {
          if toks[1] == "0" {
            c := c.(ref := toks[2]);
          } else if toks[1] == "1" {
            c := c.(value := toks[2]);
          } else if toks[1] == "2" {
            c := c.(footprint := toks[2]);
          } else if toks[1] == "3" {
            c := c.(url := toks[2]);
          }
        }
        comp := Some(c);
      }
    }
    assert lines[..|lines|] == lines;
    r := Ok(components);
  }

  /** Once a line has raised, the rest of the file is not looked at. */
  lemma {:induction false} ErrorPersists(schematic: string, multiplier: int, r0: Result<State, ParseError>, lines: seq<string>, k: nat)
    requires r0.Ok? ==> Valid(r0.value)
    requires k <= |lines| && Run(schematic, multiplier, r0, lines[..k]).Err?
    ensures Run(schematic, multiplier, r0, lines) == Run(schematic, multiplier, r0, lines[..k])
  {
    if k < |lines| {
      var init := lines[..|lines| - 1];
      assert init[..k] == lines[..k];
      ErrorPersists(schematic, multiplier, r0, init, k);
    } else {
      assert lines[..k] == lines;
    }
  }

  // ---------------------------------------------------------------------
  // Records carry their file's name and multiplier; one per `$EndComp`

  function CountMarker(lines: seq<string>, marker: string): nat
  {
    if lines == [] then 0
    else CountMarker(lines[..|lines| - 1], marker) + (if lines[|lines| - 1] == marker then 1 else 0)
  }

  /** A record of the file: its name and multiplier, no supplier data yet. */
  ghost predicate OfFile(c: Component, schematic: string, multiplier: int)
  {
    c.schematic == schematic && c.multiplier == multiplier && c.supplier == "" && c.supplierRef == ""
  }

  lemma {:induction false} RunRecords(schematic: string, multiplier: int, lines: seq<string>)
    ensures var r := Run(schematic, multiplier, Ok(Initial), lines);
      r.Ok? ==>
        && |r.value.records| == CountMarker(lines, "$EndComp")
        && (r.value.comp.Some? ==> OfFile(r.value.comp.value, schematic, multiplier))
        && (forall c :: c in r.value.records ==> OfFile(c, schematic, multiplier))
  {
    if lines != [] {
      RunRecords(schematic, multiplier, lines[..|lines| - 1]);
    }
  }

  /** Every record reaches the output on an `$EndComp` line, and only there:
      a file yields exactly one record per `$EndComp` line, each carrying the
      file's name and multiplier and no supplier data. */
  lemma ParsedRecords(schematic: string, multiplier: int, lines: seq<string>)
    ensures var r := Parse(schematic, multiplier, lines);
      r.Ok? ==>
        && |r.value| == CountMarker(lines, "$EndComp")
        && forall c :: c in r.value ==> OfFile(c, schematic, multiplier)
  {
    RunRecords(schematic, multiplier, lines);
  }

  // ---------------------------------------------------------------------
  // The record built from a block: the last assignment to each field wins

  /** The value a block line assigns to field `f`, if it assigns one. */
  function Assigned(toks: seq<string>, f: Field): Option<string>
    requires !TooShort(toks)
  {
    if f == Name && toks[0] == "L" then Some(toks[1])
    else if toks[0] == "F" && FieldAt(toks[1]) == Some(f) then Some(toks[2])
    else None
  }

  /** A line inside a block that neither ends it nor raises. */
  predicate BodyLine(line: string)
  {
    !IsMarker(line) && !TooShort(Tokenizer.Tokens(line))
  }

  predicate AllBody(body: seq<string>)
  {
    forall i :: 0 <= i < |body| ==> BodyLine(body[i])
  }

  predicate NoMarkers(lines: seq<string>)
  {
    forall i :: 0 <= i < |lines| ==> !IsMarker(lines[i])
  }

  /** `L x` sets only `name`, `F k v` with k in 0..3 sets only the field k
      selects, and every other line leaves the record as it is. */
  lemma ApplyDispatch(c: Component, toks: seq<string>)
    requires !TooShort(toks)
    ensures Apply(c, toks).multiplier == c.multiplier
    ensures forall f :: Get(Apply(c, toks), f) == (match Assigned(toks, f) case Some(v) => v case None => Get(c, f))
  {
  }

  /** The record a block body builds from the record `c`. */
  function Build(c: Component, body: seq<string>): Component
    requires AllBody(body)
  {
    if body == [] then c
    else Apply(Build(c, body[..|body| - 1]), Tokenizer.Tokens(body[|body| - 1]))
  }

  /** The value the last line of `body` that assigns `f` gives it, or "". */
  function LastAssigned(body: seq<string>, f: Field): string
    requires AllBody(body)
  {
    if body == [] then ""
    else
      match Assigned(Tokenizer.Tokens(body[|body| - 1]), f)
      case Some(v) => v
      case None => LastAssigned(body[..|body| - 1], f)
  }

  /** A sealed record holds the file's name and multiplier and, for every
      other field, what the last line of its block that sets it gives, or "". */
  lemma {:induction false} BuildFields(schematic: string, multiplier: int, body: seq<string>)
    requires AllBody(body)
    ensures var c := Build(Fresh(schematic, multiplier), body);
      && c.multiplier == multiplier
      && forall f :: Get(c, f) == if f == Schematic then schematic else LastAssigned(body, f)
  {
    if body != [] {
      var init := body[..|body| - 1];
      BuildFields(schematic, multiplier, init);
      ApplyDispatch(Build(Fresh(schematic, multiplier), init), Tokenizer.Tokens(body[|body| - 1]));
    }
  }

  // ---------------------------------------------------------------------
  // A whole file made of blocks

  /** Lines outside blocks, then a block `$Comp` body `$EndComp`. */
  datatype Block = Block(before: seq<string>, body: seq<string>)

  predicate WellFormed(b: Block)
  {
    && NoMarkers(b.before)
    && AllBody(b.body)
  }

  function RenderBlock(b: Block): seq<string>
  {
    b.before + ["$Comp"] + b.body + ["$EndComp"]
  }

  function RenderBlocks(bs: seq<Block>): seq<string>
  {
    if bs == [] then [] else RenderBlocks(bs[..|bs| - 1]) + RenderBlock(bs[|bs| - 1])
  }

  function Builds(schematic: string, multiplier: int, bs: seq<Block>): seq<Component>
    requires forall i :: 0 <= i < |bs| ==> WellFormed(bs[i])
  {
    if bs == [] then []
    else
      assert WellFormed(bs[|bs| - 1]);
      Builds(schematic, multiplier, bs[..|bs| - 1]) + [Build(Fresh(schematic, multiplier), bs[|bs| - 1].body)]
  }

  lemma {:induction false} RunAppend(schematic: string, multiplier: int, r0: Result<State, ParseError>, a: seq<string>, b: seq<string>)
    requires r0.Ok? ==> Valid(r0.value)
    ensures Run(schematic, multiplier, r0, a + b) == Run(schematic, multiplier, Run(schematic, multiplier, r0, a), b)
  {
    if b == [] {
      assert a + b == a;
    } else {
      RunAppend(schematic, multiplier, r0, a, b[..|b| - 1]);
      assert (a + b)[..|a + b| - 1] == a + b[..|b| - 1];
    }
  }

  /** Outside a block, lines other than the markers change nothing. */
  lemma {:induction false} RunOutside(schematic: string, multiplier: int, st: State, lines: seq<string>)
    requires !st.inCompDef && NoMarkers(lines)
    ensures Run(schematic, multiplier, Ok(st), lines) == Ok(st)
  {
    if lines != [] {
      RunOutside(schematic, multiplier, st, lines[..|lines| - 1]);
    }
  }

  /** Inside a block, the body lines build the record. */
  lemma {:induction false} RunInside(schematic: string, multiplier: int, c: Component, records: seq<Component>, body: seq<string>)
    requires AllBody(body)
    ensures Run(schematic, multiplier, Ok(State(true, Some(c), records)), body)
      == Ok(State(true, Some(Build(c, body)), records))
  {
    if body != [] {
      RunInside(schematic, multiplier, c, records, body[..|body| - 1]);
    }
  }

  lemma RunBlock(schematic: string, multiplier: int, st: State, b: Block)
    requires !st.inCompDef && WellFormed(b)
    ensures var c := Build(Fresh(schematic, multiplier), b.body);
      Run(schematic, multiplier, Ok(st), RenderBlock(b)) == Ok(State(false, Some(c), st.records + [c]))
  {
    var start := Fresh(schematic, multiplier);
    RunOutside(schematic, multiplier, st, b.before);
    RunAppend(schematic, multiplier, Ok(st), b.before, ["$Comp"]);
    var inBlock := State(true, Some(start), st.records);
    assert Run(schematic, multiplier, Ok(st), b.before + ["$Comp"]) == Ok(inBlock);
    RunAppend(schematic, multiplier, Ok(st), b.before + ["$Comp"], b.body);
    RunInside(schematic, multiplier, start, st.records, b.body);
    RunAppend(schematic, multiplier, Ok(st), b.before + ["$Comp"] + b.body, ["$EndComp"]);
  }

  lemma {:induction false} RunBlocks(schematic: string, multiplier: int, bs: seq<Block>)
    requires forall i :: 0 <= i < |bs| ==> WellFormed(bs[i])
    ensures var r := Run(schematic, multiplier, Ok(Initial), RenderBlocks(bs));
      && r.Ok? && !r.value.inCompDef
      && r.value.records == Builds(schematic, multiplier, bs)
  {
    if bs != [] {
      var init := bs[..|bs| - 1];
      RunBlocks(schematic, multiplier, init);
      RunAppend(schematic, multiplier, Ok(Initial), RenderBlocks(init), RenderBlock(bs[|bs| - 1]));
      RunBlock(schematic, multiplier, Run(schematic, multiplier, Ok(Initial), RenderBlocks(init)).value, bs[|bs| - 1]);
    }
  }

  /** A file made of well-formed blocks yields one record per block, in
      order, each built from its block's body; a final `$Comp` whose
      `$EndComp` never comes adds nothing. */
  lemma ParseBlocks(schematic: string, multiplier: int, bs: seq<Block>, unterminated: seq<string>)
    requires forall i :: 0 <= i < |bs| ==> WellFormed(bs[i])
    requires AllBody(unterminated)
    ensures Parse(schematic, multiplier, RenderBlocks(bs)) == Ok(Builds(schematic, multiplier, bs))
    ensures Parse(schematic, multiplier, RenderBlocks(bs) + ["$Comp"] + unterminated)
      == Ok(Builds(schematic, multiplier, bs))
  {
    RunBlocks(schematic, multiplier, bs);
    var st := Run(schematic, multiplier, Ok(Initial), RenderBlocks(bs)).value;
    RunAppend(schematic, multiplier, Ok(Initial), RenderBlocks(bs), ["$Comp"]);
    RunAppend(schematic, multiplier, Ok(Initial), RenderBlocks(bs) + ["$Comp"], unterminated);
    RunInside(schematic, multiplier, Fresh(schematic, multiplier), st.records, unterminated);
  }

  // ---------------------------------------------------------------------
  // The markers are not checked against the state

  /** After any file of well-formed blocks, a stray `$EndComp` seals another
      copy of the last record: the state keeps the record it just closed. */
  lemma StrayEndCompRepeats(schematic: string, multiplier: int, bs: seq<Block>)
    requires bs != [] && forall i :: 0 <= i < |bs| ==> WellFormed(bs[i])
    ensures var b := Builds(schematic, multiplier, bs);
      |b| == |bs| && Parse(schematic, multiplier, RenderBlocks(bs) + ["$EndComp"]) == Ok(b + [b[|b| - 1]])
  {
    var init, last := bs[..|bs| - 1], bs[|bs| - 1];
    RunBlocks(schematic, multiplier, init);
    BuildsLength(schematic, multiplier, bs);
    var st := Run(schematic, multiplier, Ok(Initial), RenderBlocks(init)).value;
    RunAppend(schematic, multiplier, Ok(Initial), RenderBlocks(init), RenderBlock(last));
    RunBlock(schematic, multiplier, st, last);
    RunAppend(schematic, multiplier, Ok(Initial), RenderBlocks(bs), ["$EndComp"]);
    assert ["$EndComp"][..0] == [];
  }

  lemma {:induction false} BuildsLength(schematic: string, multiplier: int, bs: seq<Block>)
    requires forall i :: 0 <= i < |bs| ==> WellFormed(bs[i])
    ensures |Builds(schematic, multiplier, bs)| == |bs|
  {
    if bs != [] {
      BuildsLength(schematic, multiplier, bs[..|bs| - 1]);
    }
  }

  /** A second `$EndComp` seals another copy of the last record. */
  lemma StrayEndComp()
    ensures Parse("board", 2, ["$Comp", "$EndComp", "$EndComp"]) == Ok([Fresh("board", 2), Fresh("board", 2)])
  {
    var lines := ["$Comp", "$EndComp", "$EndComp"];
    var c := Fresh("board", 2);
    var two := ["$Comp", "$EndComp"];
    assert two[..1] == ["$Comp"] && lines[..2] == two;
    assert ["$Comp"][..0] == [];
    assert "$EndComp"[1] != "$Comp"[1];
    assert Run("board", 2, Ok(Initial), ["$Comp"]) == Ok(State(true, Some(c), []));
    var st := State(true, Some(c), []);
    assert "$EndComp" != "$Comp";
    assert Step("board", 2, st, "$EndComp") == Ok(State(false, st.comp, st.records + [st.comp.value]));
    assert st.records + [st.comp.value] == [c];
    assert Step("board", 2, st, "$EndComp") == Ok(State(false, Some(c), [c]));
    assert Run("board", 2, Ok(Initial), two) == Step("board", 2, st, "$EndComp");
    assert Run("board", 2, Ok(Initial), two) == Ok(State(false, Some(c), [c]));
    var sealed := State(false, Some(c), [c]);
    assert sealed.records + [sealed.comp.value] == [c, c];
    assert Run("board", 2, Ok(Initial), lines) == Step("board", 2, sealed, "$EndComp");
    assert Run("board", 2, Ok(Initial), lines) == Ok(State(false, Some(c), [c, c]));
  }

  /** In any file, an `$EndComp` that comes before every `$Comp` raises, and
      the lines after it are not read. */
  lemma EndCompFirst(schematic: string, multiplier: int, before: seq<string>, rest: seq<string>)
    requires NoMarkers(before)
    ensures Parse(schematic, multiplier, before + ["$EndComp"] + rest) == Err(EndWithoutComp)
  {
    var head := before + ["$EndComp"];
    var lines := head + rest;
    RunOutside(schematic, multiplier, Initial, before);
    RunAppend(schematic, multiplier, Ok(Initial), before, ["$EndComp"]);
    assert ["$EndComp"][..0] == [];
    assert lines[..|head|] == head;
    ErrorPersists(schematic, multiplier, Ok(Initial), lines, |head|);
  }

  /** In any file, an empty line inside a block raises: after well-formed
      blocks, a `$Comp` and body lines, the line `""` has no token 0. */
  lemma EmptyLineInBlock(schematic: string, multiplier: int, bs: seq<Block>, body: seq<string>, rest: seq<string>)
    requires forall i :: 0 <= i < |bs| ==> WellFormed(bs[i])
    requires AllBody(body)
    ensures Parse(schematic, multiplier, RenderBlocks(bs) + ["$Comp"] + body + [""] + rest) == Err(MissingToken)
  {
    RunBlocks(schematic, multiplier, bs);
    var st := Run(schematic, multiplier, Ok(Initial), RenderBlocks(bs)).value;
    var open := RenderBlocks(bs) + ["$Comp"];
    RunAppend(schematic, multiplier, Ok(Initial), RenderBlocks(bs), ["$Comp"]);
    RunAppend(schematic, multiplier, Ok(Initial), open, body);
    RunInside(schematic, multiplier, Fresh(schematic, multiplier), st.records, body);
    var head := open + body + [""];
    RunAppend(schematic, multiplier, Ok(Initial), open + body, [""]);
    assert [""][..0] == [];
    assert Tokenizer.Tokens("") == [];
    var lines := head + rest;
    assert lines[..|head|] == head;
    ErrorPersists(schematic, multiplier, Ok(Initial), lines, |head|);
  }

  /** `$EndComp` before any `$Comp` raises, and so does an empty line inside a block. */
  lemma Raises()
    ensures Parse("board", 1, ["$EndComp"]) == Err(EndWithoutComp)
    ensures Parse("board", 1, ["$Comp", ""]) == Err(MissingToken)
  {
    assert ["$EndComp"][..0] == [];
    assert ["$Comp", ""][..1] == ["$Comp"] && ["$Comp"][..0] == [];
    assert Tokenizer.Tokens("") == [];
  }

  // ---------------------------------------------------------------------
  // All the files, in order

  /** One schematic file: its name without directory and extension, its
      multiplier, and its stripped lines. */
  datatype SchematicFile = SchematicFile(name: string, multiplier: int, lines: seq<string>)

  function ParseFiles(files: seq<SchematicFile>): Result<seq<Component>, ParseError>
  {
    if files == [] then Ok([])
    else
      match ParseFiles(files[..|files| - 1])
      case Err(e) => Err(e)
      case Ok(rs) =>
        var f := files[|files| - 1];
        match Parse(f.name, f.multiplier, f.lines)
        case Err(e) => Err(e)
        case Ok(more) => Ok(rs + more)
  }

  method ParseAll(files: seq<SchematicFile>) returns (r: Result<seq<Component>, ParseError>)
    ensures r == ParseFiles(files)
  {
    var components: seq<Component> := [];
    for i := 0 to |files|
      invariant ParseFiles(files[..i]) == Ok(components)
    {
      assert files[..i + 1][..i] == files[..i];
      var more := ParseFile(files[i].name, files[i].multiplier, files[i].lines);
      if more.Err? {
        FilesErrorPersists(files, i + 1);
        return Err(more.error);
      }
      components := components + more.value;
    }
    assert files[..|files|] == files;
    r := Ok(components);
  }

  lemma {:induction false} FilesErrorPersists(files: seq<SchematicFile>, k: nat)
    requires k <= |files| && ParseFiles(files[..k]).Err?
    ensures ParseFiles(files) == ParseFiles(files[..k])
  {
    if k < |files| {
      var init := files[..|files| - 1];
      assert init[..k] == files[..k];
      FilesErrorPersists(init, k);
    } else {
      assert files[..k] == files;
    }
  }

  /** Every record of the run comes from one of the files and carries that
      file's name and multiplier. */
  lemma {:induction false} FilesRecords(files: seq<SchematicFile>)
    ensures ParseFiles(files).Ok? ==>
      forall c :: c in ParseFiles(files).value ==>
        exists i :: 0 <= i < |files| && OfFile(c, files[i].name, files[i].multiplier)
  {
    if files != [] {
      var init := files[..|files| - 1];
      var f := files[|files| - 1];
      FilesRecords(init);
      ParsedRecords(f.name, f.multiplier, f.lines);
      if ParseFiles(files).Ok? {
        forall c | c in ParseFiles(files).value
          ensures exists i :: 0 <= i < |files| && OfFile(c, files[i].name, files[i].multiplier)
        {
          if c in ParseFiles(init).value {
            var i :| 0 <= i < |init| && OfFile(c, init[i].name, init[i].multiplier);
            assert files[i] == init[i];
          } else {
            assert OfFile(c, files[|files| - 1].name, files[|files| - 1].multiplier);
          }
        }
      }
    }
  }
}
