/**
 * Character selection (`parse_allowed_chars`): a comma-separated list of codes
 * and inclusive ranges, each optionally preceded by `-` for "exclude", applied
 * left to right to the eligibility flags of the glyph table.
 */
module Selection {
  import opened Common
  import opened Text
  import opened Glyphs

  /** One token's effect: set the flag of one code, or of codes `lo..hi` inclusive. */
  datatype Command = Single(code: int, allowed: bool) | Range(lo: int, hi: int, allowed: bool)

  /** The two messages `error` prints before exiting. */
  datatype SelectError = InvalidCharacter(code: int) | InvalidRange(start: int, end: int)

  /** The commands the parser can produce: codes in 0..255 and non-empty,
      non-singleton ranges. */
  predicate ValidCommand(cmd: Command)
  {
    match cmd
    case Single(c, _) => 0 <= c <= 255
    case Range(lo, hi, _) => 0 <= lo < hi <= 255
  }

  /** Whether `cmd` changes the flag of code `c`. */
  predicate Covers(cmd: Command, c: int)
  {
    match cmd
    case Single(code, _) => c == code
    case Range(lo, hi, _) => lo <= c <= hi
  }

  /** One token: a leading `-` means exclude, and the rest is read by `ParseBody`. */
  function ParseToken(tok: string): (r: Result<Command, SelectError>)
    ensures r.Success? ==> ValidCommand(r.value)
    ensures r.Success? ==> r.value.allowed == !(|tok| > 0 && tok[0] == '-')
  {
    var allowed := !(|tok| > 0 && tok[0] == '-');
    ParseBody(if allowed then tok else tok[1..], allowed)
  }

  /** A token without its exclusion mark: a `-` splits it into the two ends of a
      range, each read by `atoi`; without a `-` it is one code. */
  function ParseBody(body: string, allowed: bool): (r: Result<Command, SelectError>)
    ensures r.Success? ==> ValidCommand(r.value) && r.value.allowed == allowed
  {
    if '-' in body then
      var k := FirstIndex(body, '-');
      CheckRange(Atoi(body[..k]), Atoi(body[k + 1..]), allowed)
    else
      CheckCode(Atoi(body), allowed)
  }

  /** The checks on a range: the start first, then the end, then that the start
      lies below the end. */
  function CheckRange(cb: int, ce: int, allowed: bool): (r: Result<Command, SelectError>)
    ensures r.Success? <==> 0 <= cb < ce <= 255
    ensures r.Success? ==> r.value == Range(cb, ce, allowed)
    ensures !(0 <= cb <= 255) ==> r == Failure(InvalidCharacter(cb))
    ensures 0 <= cb <= 255 && !(0 <= ce <= 255) ==> r == Failure(InvalidCharacter(ce))
    ensures 0 <= cb <= 255 && 0 <= ce <= 255 && cb >= ce ==> r == Failure(InvalidRange(cb, ce))
  {
    if cb < 0 || cb > 255 then Failure(InvalidCharacter(cb))
    else if ce < 0 || ce > 255 then Failure(InvalidCharacter(ce))
    else if cb >= ce then Failure(InvalidRange(cb, ce))
    else Success(Range(cb, ce, allowed))
  }

  /** The check on a single code. */
  function CheckCode(c: int, allowed: bool): (r: Result<Command, SelectError>)
    ensures r.Success? <==> 0 <= c <= 255
    ensures r == if 0 <= c <= 255 then Success(Single(c, allowed)) else Failure(InvalidCharacter(c))
  {
    if c < 0 || c > 255 then Failure(InvalidCharacter(c))
    else Success(Single(c, allowed))
  }

  /** The canonical spelling of a command. */
  function Format(cmd: Command): string
    requires ValidCommand(cmd)
  {
    (if cmd.allowed then "" else "-") +
    match cmd
    case Single(c, _) => NatToString(c)
    case Range(lo, hi, _) => (NatToString(lo) + "-" + NatToString(hi))
  }

  /** The exclusion mark, when present, is stripped before the body is read. */
  lemma ParseMarked(body: string, allowed: bool)
    requires |body| > 0 && body[0] != '-'
    ensures ParseToken((if allowed then "" else "-") + body) == ParseBody(body, allowed)
  {
    var tok := (if allowed then "" else "-") + body;
    assert tok[0] == (if allowed then body[0] else '-');
    assert (if allowed then tok else tok[1..]) == body;
  }

  lemma RangeBodySplit(sa: string, sb: string)
    requires |sa| > 0 && '-' !in sa
    ensures var body := sa + "-" + sb;
      '-' in body && FirstIndex(body, '-') == |sa| && body[..|sa|] == sa && body[|sa| + 1..] == sb
  {
    var body := sa + "-" + sb;
    assert body[|sa|] == '-';
    assert body[..|sa|] == sa;
    assert body[|sa| + 1..] == sb;
  }

  lemma RangeBody(a: nat, b: nat, allowed: bool)
    ensures var body := NatToString(a) + "-" + NatToString(b);
      |body| > 0 && body[0] != '-' && ParseBody(body, allowed) == CheckRange(a, b, allowed)
  {
    var sa, sb := NatToString(a), NatToString(b);
    RangeBodySplit(sa, sb);
    AtoiOfNat(a);
    AtoiOfNat(b);
    assert (sa + "-" + sb)[0] == sa[0];
  }

  /** A range token `a-b` (with or without the exclusion mark) is accepted
      exactly when both ends are codes and `a < b`; otherwise it reports the
      first offending end, or the pair when `a >= b`. */
  lemma ParseRangeToken(a: nat, b: nat, allowed: bool)
    ensures ParseToken((if allowed then "" else "-") + (NatToString(a) + "-" + NatToString(b))) ==
        if a > 255 then Failure(InvalidCharacter(a))
        else if b > 255 then Failure(InvalidCharacter(b))
        else if a >= b then Failure(InvalidRange(a, b))
        else Success(Range(a, b, allowed))
  {
    RangeBody(a, b, allowed);
    ParseMarked(NatToString(a) + "-" + NatToString(b), allowed);
  }

  /** A single-code token is accepted exactly when the code is at most 255. */
  lemma ParseSingleToken(a: nat, allowed: bool)
    ensures ParseToken((if allowed then "" else "-") + NatToString(a)) ==
      if a > 255 then Failure(InvalidCharacter(a)) else Success(Single(a, allowed))
  {
    var sa := NatToString(a);
    ParseMarked(sa, allowed);
    AtoiOfNat(a);
  }

  /** Parsing reads back every command it can produce. */
  lemma ParseFormat(cmd: Command)
    requires ValidCommand(cmd)
    ensures ParseToken(Format(cmd)) == Success(cmd)
  {
    match cmd
    case Single(c, a) => ParseSingleToken(c, a);
    case Range(lo, hi, a) =>
      ParseRangeToken(lo, hi, a);
  }

  /** `font_set_allowed` or `font_set_allowed_range` for one command. */
  function Apply(gs: seq<Glyph>, cmd: Command): (r: seq<Glyph>)
    requires |gs| == NrChars && ValidCommand(cmd)
    ensures |r| == NrChars
  {
    match cmd
    case Single(c, a) => SetOne(gs, c, a)
    case Range(lo, hi, a) => SetRange(gs, lo, hi, a)
  }

  /** The commands applied in order. */
  function ApplyAll(gs: seq<Glyph>, cmds: seq<Command>): (r: seq<Glyph>)
    requires |gs| == NrChars && forall i :: 0 <= i < |cmds| ==> ValidCommand(cmds[i])
    ensures |r| == NrChars
    decreases |cmds|
  {
    if |cmds| == 0 then gs else ApplyAll(Apply(gs, cmds[0]), cmds[1..])
  }

  /** The flag that code `c`, starting as `init`, ends with: that of the last
      command covering `c`, or `init` when none does. */
  function Verdict(cmds: seq<Command>, c: int, init: bool): bool
  {
    if |cmds| == 0 then init
    else if Covers(cmds[|cmds| - 1], c) then cmds[|cmds| - 1].allowed
    else Verdict(cmds[..|cmds| - 1], c, init)
  }

  lemma {:induction false} VerdictCons(cmd: Command, rest: seq<Command>, c: int, init: bool)
    ensures Verdict([cmd] + rest, c, init) == Verdict(rest, c, if Covers(cmd, c) then cmd.allowed else init)
  {
    if |rest| > 0 {
      assert ([cmd] + rest)[..|rest|] == [cmd] + rest[..|rest| - 1];
      VerdictCons(cmd, rest[..|rest| - 1], c, init);
    }
  }

  /** One command changes the flag of the codes it covers and nothing else. */
  lemma ApplyAt(gs: seq<Glyph>, cmd: Command, c: int)
    requires |gs| == NrChars && ValidCommand(cmd) && 0 <= c < NrChars
    ensures Apply(gs, cmd)[c] == gs[c].(allowed := if Covers(cmd, c) then cmd.allowed else gs[c].allowed)
  {
  }

  /** Later commands override earlier ones, and no glyph changes anything but its flag. */
  lemma {:induction false} ApplyAllVerdict(gs: seq<Glyph>, cmds: seq<Command>, c: int)
    requires |gs| == NrChars && forall i :: 0 <= i < |cmds| ==> ValidCommand(cmds[i])
    requires 0 <= c < NrChars
    ensures ApplyAll(gs, cmds)[c] == gs[c].(allowed := Verdict(cmds, c, gs[c].allowed))
    decreases |cmds|
  {
    if |cmds| > 0 {
      var g1 := Apply(gs, cmds[0]);
      ApplyAt(gs, cmds[0], c);
      ApplyAllVerdict(g1, cmds[1..], c);
      VerdictCons(cmds[0], cmds[1..], c, gs[c].allowed);
      assert [cmds[0]] + cmds[1..] == cmds;
    }
  }

  /** The commands of the tokens up to the first bad one, and that token's error. */
  function ParsePrefix(toks: seq<string>): (r: (seq<Command>, Outcome<SelectError>))
    ensures forall i :: 0 <= i < |r.0| ==> ValidCommand(r.0[i])
    ensures |r.0| <= |toks|
    ensures r.1.Pass? ==> |r.0| == |toks|
    ensures forall i :: 0 <= i < |r.0| ==> ParseToken(toks[i]) == Success(r.0[i])
    ensures r.1.Fail? ==> |r.0| < |toks| && ParseToken(toks[|r.0|]) == Failure(r.1.error)
  {
    if |toks| == 0 then ([], Pass)
    else match ParseToken(toks[0])
      case Failure(e) => ([], Fail(e))
      case Success(cmd) =>
        var rest := ParsePrefix(toks[1..]);
        PrefixCons(ParseToken, toks, cmd, rest.0, rest.1);
        ([cmd] + rest.0, rest.1)
  }

  /** The parses of the tokens after the first, shifted by one position. */
  lemma PrefixCons(parse: string -> Result<Command, SelectError>, toks: seq<string>, cmd: Command,
                   cmds: seq<Command>, out: Outcome<SelectError>)
    requires |toks| > 0 && parse(toks[0]) == Success(cmd) && |cmds| < |toks|
    requires forall i :: 0 <= i < |cmds| ==> parse(toks[1..][i]) == Success(cmds[i])
    requires out.Fail? ==> |cmds| < |toks| - 1 && parse(toks[1..][|cmds|]) == Failure(out.error)
    ensures forall i :: 0 <= i < |cmds| + 1 ==> parse(toks[i]) == Success(([cmd] + cmds)[i])
    ensures out.Fail? ==> |cmds| + 1 < |toks| && parse(toks[|cmds| + 1]) == Failure(out.error)
  {
    forall i | 0 <= i < |cmds| + 1
      ensures parse(toks[i]) == Success(([cmd] + cmds)[i])
    {
      if i > 0 {
        assert toks[i] == toks[1..][i - 1];
      }
    }
    if out.Fail? {
      assert toks[|cmds| + 1] == toks[1..][|cmds|];
    }
  }

  /** One step of parsing: a good first token is kept and the rest parsed. */
  lemma ParsePrefixStep(toks: seq<string>, cmd: Command)
    requires |toks| > 0 && ParseToken(toks[0]) == Success(cmd)
    ensures ParsePrefix(toks) == ([cmd] + ParsePrefix(toks[1..]).0, ParsePrefix(toks[1..]).1)
  {
  }

  /** What `parse_allowed_chars` leaves behind: the tokens are applied one after
      the other, and the first bad token stops the run with the tokens before it
      already applied. */
  function RunTokens(gs: seq<Glyph>, toks: seq<string>): (r: (seq<Glyph>, Outcome<SelectError>))
    requires |gs| == NrChars
    ensures |r.0| == NrChars
    decreases |toks|
  {
    if |toks| == 0 then (gs, Pass)
    else match ParseToken(toks[0])
      case Failure(e) => (gs, Fail(e))
      case Success(cmd) => RunTokens(Apply(gs, cmd), toks[1..])
  }

  function RunSelection(gs: seq<Glyph>, str: string): (r: (seq<Glyph>, Outcome<SelectError>))
    requires |gs| == NrChars
  {
    RunTokens(gs, Split(str, ','))
  }

  /** One step of the run: a bad first token stops it, a good one is applied. */
  lemma RunTokensStep(gs: seq<Glyph>, toks: seq<string>)
    requires |gs| == NrChars && |toks| > 0
    ensures ParseToken(toks[0]).Failure? ==> RunTokens(gs, toks) == (gs, Fail(ParseToken(toks[0]).error))
    ensures ParseToken(toks[0]).Success? ==>
      RunTokens(gs, toks) == RunTokens(Apply(gs, ParseToken(toks[0]).value), toks[1..])
  {
  }

  /** Running the tokens is parsing the good prefix and applying its commands. */
  lemma {:induction false} RunTokensParsed(gs: seq<Glyph>, toks: seq<string>)
    requires |gs| == NrChars
    ensures RunTokens(gs, toks) == (ApplyAll(gs, ParsePrefix(toks).0), ParsePrefix(toks).1)
    decreases |toks|
  {
    if |toks| > 0 {
      match ParseToken(toks[0])
      case Failure(e) =>
      case Success(cmd) =>
        RunTokensParsed(Apply(gs, cmd), toks[1..]);
        var cmds := ParsePrefix(toks).0;
        assert cmds[0] == cmd && cmds[1..] == ParsePrefix(toks[1..]).0;
    }
  }

  /** The outcome of a selection in terms of its tokens: on success every code
      ends with the verdict of the last token covering it; on failure the
      error is that of the first bad token and exactly the tokens before it
      took effect. In both cases only eligibility flags change. */
  lemma SelectionOutcome(gs: seq<Glyph>, str: string, c: int)
    requires |gs| == NrChars && 0 <= c < NrChars
    ensures var (after, res) := RunSelection(gs, str);
      var (cmds, err) := ParsePrefix(Split(str, ','));
      res == err && after[c] == gs[c].(allowed := Verdict(cmds, c, gs[c].allowed))
  {
    RunTokensParsed(gs, Split(str, ','));
    ApplyAllVerdict(gs, ParsePrefix(Split(str, ',')).0, c);
  }

  /** One parsed token's effect on the table: a range goes to
      `font_set_allowed_range`, a single code to `font_set_allowed`. */
  method ApplyCommand(f: Font, cmd: Command)
    requires f.Valid() && ValidCommand(cmd)
    modifies f.chars
    ensures f.Valid()
    ensures f.chars[..] == Apply(old(f.chars[..]), cmd)
  {
    if cmd.Range? {
      f.SetAllowedRange(cmd.lo, cmd.hi, cmd.allowed);
    } else {
      f.SetAllowed(cmd.code, cmd.allowed);
    }
  }

  /** `parse_allowed_chars`: the flags change in place token by token; on a bad
      token the run stops with the earlier tokens applied. */
  method ParseAllowedChars(f: Font, str: string) returns (r: Outcome<SelectError>)
    requires f.Valid()
    modifies f.chars
    ensures f.Valid()
    ensures (f.chars[..], r) == RunSelection(old(f.chars[..]), str)
  {
    var toks := Split(str, ',');
    var i := 0;
    while i < |toks|
      invariant 0 <= i <= |toks|
      invariant f.Valid()
      invariant RunTokens(f.chars[..], toks[i..]) == RunSelection(old(f.chars[..]), str)
    {
      RunTokensStep(f.chars[..], toks[i..]);
      assert toks[i..][0] == toks[i] && toks[i..][1..] == toks[i + 1..];
      var parsed := ParseToken(toks[i]);
      if parsed.Failure? {
        return Fail(parsed.error);
      }
      ApplyCommand(f, parsed.value);
      i := i + 1;
    }
    return Pass;
  }

  /** A selection string whose tokens are the canonical spellings of valid
      commands runs without error, and every code ends with the verdict of
      those commands. */
  lemma SelectionOfFormatted(gs: seq<Glyph>, str: string, cmds: seq<Command>, c: int)
    requires |gs| == NrChars && 0 <= c < NrChars
    requires forall i :: 0 <= i < |cmds| ==> ValidCommand(cmds[i])
    requires Split(str, ',') == FormatAll(cmds)
    ensures RunSelection(gs, str).1 == Pass
    ensures RunSelection(gs, str).0[c] == gs[c].(allowed := Verdict(cmds, c, gs[c].allowed))
  {
    ParsePrefixFormat(cmds);
    SelectionOutcome(gs, str, c);
  }

  /** The selection used when none is given on the command line. */
  const DefaultChars: string := "32-254,-130-140,-145-156,-159"

  /** The commands the four tokens of `DefaultChars` stand for. */
  const DefaultCommands: seq<Command> :=
    [Range(32, 254, true), Range(130, 140, false), Range(145, 156, false), Single(159, false)]

  lemma DefaultFormat0()
    ensures Format(DefaultCommands[0]) == "32-254"
  {
    assert NatToString(32) == "32" && NatToString(254) == "254";
  }

  lemma DefaultFormat1()
    ensures Format(DefaultCommands[1]) == "-130-140"
  {
    assert NatToString(130) == "130" && NatToString(140) == "140";
  }

  lemma DefaultFormat2()
    ensures Format(DefaultCommands[2]) == "-145-156"
  {
    assert NatToString(145) == "145" && NatToString(156) == "156";
  }

  lemma DefaultFormat3()
    ensures Format(DefaultCommands[3]) == "-159"
  {
    assert NatToString(159) == "159";
  }

  /** The canonical spelling of each command, in order. */
  function FormatAll(cmds: seq<Command>): (r: seq<string>)
    requires forall i :: 0 <= i < |cmds| ==> ValidCommand(cmds[i])
    ensures |r| == |cmds|
    ensures forall i :: 0 <= i < |cmds| ==> r[i] == Format(cmds[i])
  {
    if |cmds| == 0 then [] else [Format(cmds[0])] + FormatAll(cmds[1..])
  }

  /** A list of canonically spelled commands parses back to the commands. */
  lemma {:induction false} ParsePrefixFormat(cmds: seq<Command>)
    requires forall i :: 0 <= i < |cmds| ==> ValidCommand(cmds[i])
    ensures ParsePrefix(FormatAll(cmds)) == (cmds, Pass)
    decreases |cmds|
  {
    if |cmds| > 0 {
      var toks := FormatAll(cmds);
      assert toks[0] == Format(cmds[0]);
      ParseFormat(cmds[0]);
      ParsePrefixStep(toks, cmds[0]);
      assert toks[1..] == FormatAll(cmds[1..]);
      ParsePrefixFormat(cmds[1..]);
      assert [cmds[0]] + cmds[1..] == cmds;
    }
  }

  lemma DefaultValid()
    ensures forall i :: 0 <= i < |DefaultCommands| ==> ValidCommand(DefaultCommands[i])
  {
  }

  lemma DefaultFormats()
    ensures FormatAll(DefaultCommands) == ["32-254", "-130-140", "-145-156", "-159"]
  {
    DefaultFormat0();
    DefaultFormat1();
    DefaultFormat2();
    DefaultFormat3();
  }

  lemma DefaultSplit()
    ensures Split(DefaultChars, ',') == ["32-254", "-130-140", "-145-156", "-159"]
  {
    var toks := ["32-254", "-130-140", "-145-156", "-159"];
    assert Join(toks, ',') == DefaultChars;
    SplitJoin(toks, ',');
  }

  /** The four tokens of `DefaultChars` are the canonical spellings of `DefaultCommands`. */
  lemma DefaultTokens()
    ensures Split(DefaultChars, ',') == FormatAll(DefaultCommands)
  {
    DefaultFormats();
    DefaultSplit();
  }

  lemma DefaultVerdict(c: int)
    ensures Verdict(DefaultCommands, c, false) <==>
      32 <= c <= 254 && !(130 <= c <= 140) && !(145 <= c <= 156) && c != 159
  {
    var cmds := DefaultCommands;
    assert cmds[..1][..0] == [];
    assert Verdict(cmds[..1], c, false) == (32 <= c <= 254);
    assert cmds[..2][..1] == cmds[..1];
    assert Verdict(cmds[..2], c, false) == (32 <= c <= 254 && !(130 <= c <= 140));
    assert cmds[..3][..2] == cmds[..2];
    assert Verdict(cmds[..3], c, false) == (32 <= c <= 254 && !(130 <= c <= 140) && !(145 <= c <= 156));
    assert cmds[..3] == cmds[..|cmds| - 1];
  }

  /** Starting from a table with nothing eligible, the default selection leaves
      exactly 32..254 eligible, minus 130..140, 145..156 and 159. */
  lemma DefaultSelection(gs: seq<Glyph>, str: string, c: int)
    requires str == DefaultChars
    requires |gs| == NrChars && 0 <= c < NrChars && !gs[c].allowed
    ensures RunSelection(gs, str).1 == Pass
    ensures RunSelection(gs, str).0[c].allowed <==>
      32 <= c <= 254 && !(130 <= c <= 140) && !(145 <= c <= 156) && c != 159
  {
    DefaultValid();
    DefaultTokens();
    DefaultVerdict(c);
    SelectionOfFormatted(gs, str, DefaultCommands, c);
  }
}
