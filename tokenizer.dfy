/** The quote-aware tokenizer `split` of kicad2bom.py: it splits a schematic
    line at spaces, like `str.split()`, but keeps double-quoted text together
    and drops the quote characters. */
module Tokenizer {

  /** The loop variables of `split`: the tokens emitted so far, the token being
      accumulated, whether a quote is open, and whether the previous character
      was an unquoted space. */
  datatype Scan = Scan(output: seq<string>, temp: string, inText: bool, multispace: bool)

  const Start := Scan([], "", false, false)

  /** One iteration of the character loop. */
  function Step(st: Scan, ch: char): (r: Scan)
    ensures st.output <= r.output && |r.output| <= |st.output| + 1
    ensures Count(r) <= Count(st) + 1
    ensures r.inText != st.inText <==> ch == '"'
  {
    if ch == ' ' && !st.inText then
      if !st.multispace then Scan(st.output + [st.temp], "", st.inText, true)
      else st.(multispace := true)
    else if ch == '"' then st.(inText := !st.inText, multispace := false)
    else st.(temp := st.temp + [ch], multispace := false)
  }

  /** The loop variables after the characters of `s`, starting from `st`. */
  function Run(st: Scan, s: string): (r: Scan)
    ensures st.output <= r.output
    ensures Count(r) <= Count(st) + |s|
  {
    if s == [] then st else Step(Run(st, s[..|s| - 1]), s[|s| - 1])
  }

  /** The tokens the state stands for: those emitted, and the pending one
      if it is not empty. */
  function Count(st: Scan): nat
  {
    |st.output| + if st.temp == "" then 0 else 1
  }

  /** After the loop, a non-empty accumulated token is emitted. */
  function Finish(st: Scan): seq<string>
  {
    if st.temp != "" then st.output + [st.temp] else st.output
  }

  /** What `split(line)` returns. */
  function Tokens(line: string): (r: seq<string>)
    ensures |r| <= |line|
  {
    Finish(Run(Start, line))
  }

  method Split(line: string) returns (output: seq<string>)
    ensures output == Tokens(line)
  {
    output := [];
    var temp := "";
    var inText := false;
    var multispace := false;
    for i := 0 to |line|
      invariant Run(Start, line[..i]) == Scan(output, temp, inText, multispace)
    {
      var l := line[i];
      assert line[..i + 1][..i] == line[..i];
      if l == ' ' && !inText {
        if !multispace {
          output := output + [temp];
          temp := "";
        }
        multispace := true;
      } else if l == '"' {
        inText := !inText;
        multispace := false;
      } else {
        temp := temp + [l];
        multispace := false;
      }
    }
    assert line[..|line|] == line;
    if temp != "" {
      output := output + [temp];
    }
  }

  // ---------------------------------------------------------------------
  // An independent description of what the tokens hold

  /** Whether a quote is open after `s`: an odd number of `"` in it. */
  function InQuotes(s: string): bool
  {
    if s == [] then false else InQuotes(s[..|s| - 1]) != (s[|s| - 1] == '"')
  }

  /** The characters of `s` that end up in some token: all but the quote
      characters and the spaces outside quotes. */
  function Kept(s: string): string
  {
    if s == [] then []
    else
      var init, ch := s[..|s| - 1], s[|s| - 1];
      Kept(init) + (if ch == '"' || (ch == ' ' && !InQuotes(init)) then [] else [ch])
  }

  function Flatten(ts: seq<string>): string
  {
    if ts == [] then [] else Flatten(ts[..|ts| - 1]) + ts[|ts| - 1]
  }

  ghost predicate QuoteFree(ts: seq<string>)
  {
    forall t :: t in ts ==> '"' !in t
  }

  lemma {:induction false} RunTracksQuotes(s: string)
    ensures var st := Run(Start, s);
      && st.inText == InQuotes(s)
      && Flatten(st.output) + st.temp == Kept(s)
      && QuoteFree(st.output) && '"' !in st.temp
  {
    if s != [] {
      var init, ch := s[..|s| - 1], s[|s| - 1];
      RunTracksQuotes(init);
      var st := Run(Start, init);
      if ch == ' ' && !st.inText && !st.multispace {
        assert (st.output + [st.temp])[..|st.output|] == st.output;
        assert QuoteFree(st.output + [st.temp]) by {
          forall t | t in st.output + [st.temp] ensures '"' !in t {
            if t != st.temp { assert t in st.output; }
          }
        }
      }
    }
  }

  /** No token contains a quote character, and the tokens hold, in order,
      exactly the characters of the line other than quotes and unquoted
      spaces: spaces between quotes stay inside a token. */
  lemma TokensContent(line: string)
    ensures QuoteFree(Tokens(line))
    ensures Flatten(Tokens(line)) == Kept(line)
  {
    RunTracksQuotes(line);
    var st := Run(Start, line);
    if st.temp != "" {
      assert (st.output + [st.temp])[..|st.output|] == st.output;
      forall t | t in st.output + [st.temp] ensures '"' !in t {
        if t != st.temp { assert t in st.output; }
      }
    }
  }

  // ---------------------------------------------------------------------
  // Runs of spaces and unbalanced quotes

  lemma {:induction false} RunAppend(st: Scan, a: string, b: string)
    ensures Run(st, a + b) == Run(Run(st, a), b)
  {
    if b == [] {
      assert a + b == a;
    } else {
      RunAppend(st, a, b[..|b| - 1]);
      assert (a + b)[..|a + b| - 1] == a + b[..|b| - 1];
    }
  }

  /** Outside quotes, a second space changes nothing: a run of spaces
      separates two tokens exactly like a single space. */
  lemma SpacesCollapse(p: string, q: string)
    requires !InQuotes(p)
    ensures Tokens(p + "  " + q) == Tokens(p + " " + q)
  {
    RunTracksQuotes(p);
    RunAppend(Start, p, " ");
    RunAppend(Start, p + " ", " ");
    assert p + " " + " " == p + "  ";
    RunAppend(Start, p + "  ", q);
    RunAppend(Start, p + " ", q);
  }

  lemma {:induction false} RunNoEmpty(s: string)
    requires '"' !in s && (s == [] || s[0] != ' ')
    ensures var st := Run(Start, s);
      && !st.inText
      && (forall t :: t in st.output ==> t != "")
      && (st.temp == "" ==> s == [] || st.multispace)
  {
    if s != [] {
      var init := s[..|s| - 1];
      assert init != [] ==> init[0] == s[0];
      RunNoEmpty(init);
    }
  }

  /** Without quotes, and with no leading space (lines are stripped before
      they are split), no token is empty however many spaces separate them. */
  lemma NoEmptyTokens(line: string)
    requires '"' !in line && (line == [] || line[0] != ' ')
    ensures forall t :: t in Tokens(line) ==> t != ""
  {
    RunNoEmpty(line);
  }

  /** A leading space, by contrast, emits an empty first token. */
  lemma LeadingSpace()
    ensures Tokens(" R1") == ["", "R1"]
  {
    assert " R1"[..2] == " R" && " R"[..1] == " " && " "[..0] == [];
    assert Run(Start, " ") == Scan([""], "", false, true);
    assert Run(Start, " R") == Scan([""], "R", false, false);
    assert Run(Start, " R1") == Scan([""], "R1", false, false);
  }

  /** Inside quotes every character but a quote is accumulated, spaces included. */
  lemma {:induction false} RunInsideQuotes(st: Scan, r: string)
    requires st.inText && '"' !in r
    ensures Run(st, r) == if r == [] then st else st.(temp := st.temp + r, multispace := false)
  {
    if r != [] {
      var init := r[..|r| - 1];
      RunInsideQuotes(st, init);
      assert st.temp + init + [r[|r| - 1]] == st.temp + r;
    }
  }

  /** After a quote that is never closed, the rest of the line, spaces
      included, is appended to the token being accumulated and becomes the
      last token. */
  lemma UnclosedQuote(p: string, r: string)
    requires !InQuotes(p) && '"' !in r && r != ""
    ensures var st := Run(Start, p);
      Tokens(p + "\"" + r) == st.output + [st.temp + r]
  {
    RunTracksQuotes(p);
    RunAppend(Start, p, "\"");
    RunAppend(Start, p + "\"", r);
    RunInsideQuotes(Run(Start, p + "\""), r);
  }

  // ---------------------------------------------------------------------
  // Round trip: rendering words into a line and splitting it again

  /** A word of a schematic line: bare text, or text written between quotes. */
  datatype Word = Bare(text: string) | Quoted(text: string)

  ghost predicate WellFormed(w: Word)
  {
    match w
    case Bare(t) => t != "" && ' ' !in t && '"' !in t
    case Quoted(t) => '"' !in t
  }

  function RenderWord(w: Word): string
  {
    match w
    case Bare(t) => t
    case Quoted(t) => "\"" + t + "\""
  }

  /** The words written out, separated by single spaces. */
  function Render(ws: seq<Word>): string
  {
    if |ws| == 0 then ""
    else if |ws| == 1 then RenderWord(ws[0])
    else Render(ws[..|ws| - 1]) + " " + RenderWord(ws[|ws| - 1])
  }

  function Texts(ws: seq<Word>): seq<string>
  {
    if ws == [] then [] else Texts(ws[..|ws| - 1]) + [ws[|ws| - 1].text]
  }

  lemma {:induction false} RunPlain(st: Scan, t: string)
    requires ' ' !in t && '"' !in t
    ensures Run(st, t) == if t == [] then st else st.(temp := st.temp + t, multispace := false)
  {
    if t != [] {
      var init := t[..|t| - 1];
      RunPlain(st, init);
      assert st.temp + init + [t[|t| - 1]] == st.temp + t;
    }
  }

  /** A word read from a state outside quotes whose token is empty leaves its
      text as the token, outside quotes. */
  lemma RunWord(st: Scan, w: Word)
    requires WellFormed(w) && !st.inText && st.temp == ""
    ensures Run(st, RenderWord(w)) == Scan(st.output, w.text, false, false)
  {
    match w
    case Bare(t) =>
      RunPlain(st, t);
    case Quoted(t) =>
      var open := Run(st, "\"");
      assert "\""[..0] == [] && "\""[0] == '"';
      assert open == Step(Run(st, []), '"');
      assert open == st.(inText := true, multispace := false);
      RunAppend(st, "\"", t);
      RunInsideQuotes(open, t);
      var inside := Run(st, "\"" + t);
      RunAppend(st, "\"" + t, "\"");
      assert inside.inText;
  }

  lemma {:induction false} RenderRun(ws: seq<Word>)
    requires |ws| > 0 && forall i :: 0 <= i < |ws| ==> WellFormed(ws[i])
    ensures Run(Start, Render(ws)) == Scan(Texts(ws[..|ws| - 1]), ws[|ws| - 1].text, false, false)
  {
    if |ws| == 1 {
      RunWord(Start, ws[0]);
      assert ws[..0] == [];
    } else {
      var init, w := ws[..|ws| - 1], ws[|ws| - 1];
      RenderRun(init);
      assert init[..|init| - 1] == ws[..|ws| - 2];
      assert Texts(init) == Texts(ws[..|ws| - 2]) + [init[|init| - 1].text];
      RunAppend(Start, Render(init), " ");
      var spaced := Run(Start, Render(init) + " ");
      assert spaced == Scan(Texts(init), "", false, true);
      RunAppend(Start, Render(init) + " ", RenderWord(w));
      RunWord(spaced, w);
    }
  }

  /** Splitting a rendered line gives back the words' texts, provided the
      last word is not an empty quoted text (an empty final token is not
      emitted). */
  lemma RenderTokens(ws: seq<Word>)
    requires forall i :: 0 <= i < |ws| ==> WellFormed(ws[i])
    requires ws != [] ==> ws[|ws| - 1].text != ""
    ensures Tokens(Render(ws)) == Texts(ws)
  {
    if ws != [] {
      RenderRun(ws);
    }
  }

  /** The example given beside `split` in kicad2bom.py. */
  lemma SplitExample()
    ensures Tokens("F 1 \"100nF 50V\" H 5150 1125") == ["F", "1", "100nF 50V", "H", "5150", "1125"]
  {
    var ws := [Bare("F"), Bare("1"), Quoted("100nF 50V"), Bare("H"), Bare("5150"), Bare("1125")];
    ExampleRender(ws);
    ExampleTexts(ws);
    RenderTokens(ws);
  }

  lemma ExampleRender(ws: seq<Word>)
    requires ws == [Bare("F"), Bare("1"), Quoted("100nF 50V"), Bare("H"), Bare("5150"), Bare("1125")]
    ensures Render(ws) == "F 1 \"100nF 50V\" H 5150 1125"
  {
    ExampleRenderHead(ws);
    assert Render(ws[..4]) == "F 1 \"100nF 50V\" H" by { assert ws[..4][..3] == ws[..3]; }
    assert Render(ws[..5]) == "F 1 \"100nF 50V\" H 5150" by { assert ws[..5][..4] == ws[..4]; }
  }

  lemma ExampleRenderHead(ws: seq<Word>)
    requires ws == [Bare("F"), Bare("1"), Quoted("100nF 50V"), Bare("H"), Bare("5150"), Bare("1125")]
    ensures Render(ws[..3]) == "F 1 \"100nF 50V\""
  {
    assert Render(ws[..2]) == "F 1";
    assert ws[..3][..2] == ws[..2];
  }

  lemma ExampleTexts(ws: seq<Word>)
    requires ws == [Bare("F"), Bare("1"), Quoted("100nF 50V"), Bare("H"), Bare("5150"), Bare("1125")]
    ensures Texts(ws) == ["F", "1", "100nF 50V", "H", "5150", "1125"]
  {
    assert Texts(ws[..1]) == ["F"] by { assert ws[..1][..0] == []; }
    assert Texts(ws[..2]) == ["F", "1"] by { assert ws[..2][..1] == ws[..1]; }
    assert Texts(ws[..3]) == ["F", "1", "100nF 50V"] by { assert ws[..3][..2] == ws[..2]; }
    assert Texts(ws[..4]) == ["F", "1", "100nF 50V", "H"] by { assert ws[..4][..3] == ws[..3]; }
    assert Texts(ws[..5]) == ["F", "1", "100nF 50V", "H", "5150"] by { assert ws[..5][..4] == ws[..4]; }
  }
}
