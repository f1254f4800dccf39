/**
 * The single-command parser of the shell (utils.c, parse_command; the
 * Command record of utils.h).
 *
 * parse_command copies at most MAX_COMMAND_BYTES bytes of its input, pulls
 * the tokens out of the copy with next_non_empty_token into a zero-filled
 * array of MAX_COMMAND_BYTES argument slots, takes args[0] as the program
 * name and finally turns a trailing "&" token into the background flag by
 * clearing its slot. Parse gives the meaning of that procedure on values; the
 * method ParseCommand does it step by step on a Command object and is proved
 * to produce exactly Parse's value.
 */
module CommandParser {
  import opened Tokenizer

  /** MAX_COMMAND_BYTES: the cap on the input copied, and the number of argument slots. */
  const MaxCommandBytes: nat := 1024

  /** The background marker compared against the last token. */
  const BackgroundMarker: string := "&"

  /** The contents of a Command: NULL pointers are None. */
  datatype ParsedCommand = ParsedCommand(
    programName: Option<string>,
    args: seq<Option<string>>,
    inBackground: bool)

  /** strndup(command_str, MAX_COMMAND_BYTES): the copy keeps at most the first 1024 bytes. */
  function Truncate(s: string): (r: string)
    ensures |r| == if |s| <= MaxCommandBytes then |s| else MaxCommandBytes
    ensures r <= s
  {
    if |s| <= MaxCommandBytes then s else s[..MaxCommandBytes]
  }

  /** The tokens parse_command collects: the maximal non-delimiter runs of the copy. */
  function CommandTokens(commandStr: string): seq<string> {
    Tokens(Truncate(commandStr))
  }

  /** True iff the token list is non-empty and its last token is "&". */
  predicate EndsWithMarker(toks: seq<string>) {
    |toks| > 0 && toks[|toks| - 1] == BackgroundMarker
  }

  /** The tokens left as arguments: all of them, except a trailing "&". */
  function StripMarker(toks: seq<string>): seq<string> {
    if EndsWithMarker(toks) then toks[..|toks| - 1] else toks
  }

  /**
   * MAX_COMMAND_BYTES argument slots of which the first |xs| hold xs and all
   * others are NULL.
   */
  function Slots(xs: seq<string>): (r: seq<Option<string>>)
    ensures |r| == MaxCommandBytes
  {
    seq(MaxCommandBytes, k requires 0 <= k < MaxCommandBytes => if k < |xs| then Some(xs[k]) else None)
  }

  /** Storing a token into the first NULL slot appends it to the slots' contents. */
  lemma SlotsStore(xs: seq<string>, x: string)
    requires |xs| < MaxCommandBytes
    ensures Slots(xs)[|xs| := Some(x)] == Slots(xs + [x])
  {
  }

  /** Clearing the last filled slot drops the last token from the slots' contents. */
  lemma SlotsClear(xs: seq<string>, x: string)
    requires |xs| < MaxCommandBytes
    ensures Slots(xs + [x])[|xs| := None] == Slots(xs)
  {
  }

  /**
   * Reading the filled slots: slot 0 is the first token or NULL, the trailing
   * "&" test on the last filled slot is EndsWithMarker, and clearing that slot
   * leaves the slots of the other tokens.
   */
  lemma SlotsOfTokens(toks: seq<string>)
    requires |toks| <= MaxCommandBytes / 2
    ensures Slots(toks)[0] == if |toks| == 0 then None else Some(toks[0])
    ensures EndsWithMarker(toks) <==> |toks| > 0 && Slots(toks)[|toks| - 1] == Some(BackgroundMarker)
    ensures Slots(StripMarker(toks)) ==
      if EndsWithMarker(toks) then Slots(toks)[|toks| - 1 := None] else Slots(toks)
  {
    if EndsWithMarker(toks) {
      assert toks == toks[..|toks| - 1] + [toks[|toks| - 1]];
      SlotsClear(toks[..|toks| - 1], toks[|toks| - 1]);
    }
  }

  /**
   * The command built from the collected tokens `toks`: program_name is the
   * first token (taken before the marker is cleared), the slots hold the
   * tokens except a trailing "&", and the flag records whether that "&" was
   * there.
   */
  function Assemble(toks: seq<string>): ParsedCommand {
    ParsedCommand(
      if |toks| == 0 then None else Some(toks[0]),
      Slots(StripMarker(toks)),
      EndsWithMarker(toks))
  }

  /** What parse_command builds from `commandStr`. */
  function Parse(commandStr: string): ParsedCommand {
    Assemble(CommandTokens(commandStr))
  }

  /**
   * The argument vector a NULL-terminated `char**` denotes: the strings up to
   * the first NULL slot.
   */
  function Argv(slots: seq<Option<string>>): seq<string> {
    if slots == [] || slots[0].None? then [] else [slots[0].value] + Argv(slots[1..])
  }

  /** Slots holding `xs` followed by a NULL denote exactly `xs`. */
  lemma {:induction false} ArgvOfFilledSlots(slots: seq<Option<string>>, xs: seq<string>)
    requires |xs| < |slots| && slots[|xs|].None?
    requires forall k :: 0 <= k < |xs| ==> slots[k] == Some(xs[k])
    ensures Argv(slots) == xs
    decreases |xs|
  {
    if xs != [] {
      ArgvOfFilledSlots(slots[1..], xs[1..]);
    }
  }

  /**
   * The argument array is never overrun: a copy of at most 1024 bytes has at
   * most 512 tokens, so every token gets a slot and the slots from the token
   * count on (at least 512 of them) stay NULL.
   */
  lemma ArgsStayInBounds(commandStr: string)
    ensures |CommandTokens(commandStr)| <= MaxCommandBytes / 2
    ensures forall k :: |CommandTokens(commandStr)| <= k < MaxCommandBytes ==> Parse(commandStr).args[k].None?
  {
    TokenCountBound(Truncate(commandStr));
  }

  /**
   * The program sees every collected token, in order, except a trailing "&",
   * and the vector is NULL-terminated inside the array.
   */
  lemma ArgvIsTokensWithoutMarker(commandStr: string)
    ensures var toks := CommandTokens(commandStr);
      Argv(Parse(commandStr).args) ==
        if EndsWithMarker(toks) then toks[..|toks| - 1] else toks
  {
    ArgsStayInBounds(commandStr);
    var xs := StripMarker(CommandTokens(commandStr));
    ArgvOfFilledSlots(Slots(xs), xs);
  }

  /** The background flag is set iff the last collected token is "&". */
  lemma BackgroundIffTrailingMarker(commandStr: string)
    ensures Parse(commandStr).inBackground <==>
      |CommandTokens(commandStr)| > 0 && CommandTokens(commandStr)[|CommandTokens(commandStr)| - 1] == "&"
    ensures Parse(commandStr).inBackground ==>
      |Argv(Parse(commandStr).args)| == |CommandTokens(commandStr)| - 1
    ensures !Parse(commandStr).inBackground ==>
      Argv(Parse(commandStr).args) == CommandTokens(commandStr)
  {
    ArgvIsTokensWithoutMarker(commandStr);
  }

  /** A "&" that is not the last token stays an ordinary argument. */
  lemma InnerMarkerIsArgument(commandStr: string, j: nat)
    requires j + 1 < |CommandTokens(commandStr)| && CommandTokens(commandStr)[j] == "&"
    ensures j < |Argv(Parse(commandStr).args)| && Argv(Parse(commandStr).args)[j] == "&"
    ensures j < MaxCommandBytes && Parse(commandStr).args[j] == Some("&")
  {
    ArgsStayInBounds(commandStr);
    ArgvIsTokensWithoutMarker(commandStr);
  }

  /**
   * program_name is captured before the marker is cleared: it is NULL iff
   * there is no token and otherwise the first token, even when that token is
   * a trailing "&"; it is argv[0] whenever argv is non-empty, and it is
   * non-NULL with an empty argv exactly when the only token is "&".
   */
  lemma ProgramNameIsFirstToken(commandStr: string)
    ensures var r := Parse(commandStr);
      && (r.programName.None? <==> CommandTokens(commandStr) == [])
      && (CommandTokens(commandStr) != [] ==> r.programName == Some(CommandTokens(commandStr)[0]))
      && (|Argv(r.args)| > 0 ==> r.programName == Some(Argv(r.args)[0]))
      && (r.programName.Some? && Argv(r.args) == [] <==> CommandTokens(commandStr) == ["&"])
  {
    var toks := CommandTokens(commandStr);
    ArgvIsTokensWithoutMarker(commandStr);
    if |toks| == 1 && EndsWithMarker(toks) {
      assert toks == ["&"];
    }
  }

  /** The input "&" alone: program_name "&", every slot NULL, background set. */
  lemma LoneMarker()
    ensures Parse("&") == ParsedCommand(Some("&"), seq(MaxCommandBytes, k => None), true)
  {
    TokensOfWord("&");
  }

  /**
   * A line "prog arg &" (such as "sleep 5 &") runs prog with argv [prog, arg]
   * in the background.
   */
  lemma BackgroundCommandLine(prog: string, arg: string)
    requires |prog| > 0 && NoDelimiter(prog) && |arg| > 0 && NoDelimiter(arg)
    requires |prog| + |arg| + 3 <= MaxCommandBytes
    ensures var r := Parse(prog + " " + arg + " &");
      && r.programName == Some(prog)
      && Argv(r.args) == [prog, arg]
      && r.inBackground
  {
    var line := prog + " " + arg + " &";
    var tail := arg + [' '] + BackgroundMarker;
    assert line == prog + [' '] + tail;
    assert Truncate(line) == line;
    TokensSplit(arg, ' ', BackgroundMarker);
    TokensOfWord(arg);
    TokensOfWord(BackgroundMarker);
    TokensSplit(prog, ' ', tail);
    TokensOfWord(prog);
    assert CommandTokens(line) == [prog, arg, BackgroundMarker];
    ArgvIsTokensWithoutMarker(line);
  }

  /** Bytes after the first 1024 never influence the parsed command. */
  lemma IgnoresBytesBeyondLimit(s: string, t: string)
    requires |s| >= MaxCommandBytes && |t| >= MaxCommandBytes
    requires s[..MaxCommandBytes] == t[..MaxCommandBytes]
    ensures Parse(s) == Parse(t)
  {
    assert Truncate(s) == Truncate(t);
  }

  /** The Command record: program_name, the args array, in_background (0 or 1). */
  class Command {
    var programName: Option<string>
    var args: array<Option<string>>
    var inBackground: bool

    /** malloc of the record and calloc of MAX_COMMAND_BYTES NULL argument slots. */
    constructor ()
      ensures fresh(args) && args.Length == MaxCommandBytes
      ensures forall k :: 0 <= k < MaxCommandBytes ==> args[k].None?
      ensures programName.None? && !inBackground
    {
      programName := None;
      args := new Option<string>[MaxCommandBytes](k => None);
      inBackground := false;
    }

    function Value(): ParsedCommand
      reads this, args
    {
      ParsedCommand(programName, args[..], inBackground)
    }
  }

  /** The cursor on a copy of at most 1024 bytes returns at most 512 tokens. */
  lemma CursorTokenBound(s: string)
    requires |s| <= MaxCommandBytes
    ensures |Drain(Some(s))| <= MaxCommandBytes / 2
  {
    DrainIsTokens(s);
    TokenCountBound(s);
  }

  /** Moving a collected token from the front of the pending ones to the end of the collected ones. */
  lemma AppendShift(collected: seq<string>, t: string, pending: seq<string>)
    ensures collected + ([t] + pending) == (collected + [t]) + pending
  {
  }

  /**
   * The end of parse_command: program_name := args[0], and a trailing "&" in
   * slot count - 1 becomes the background flag and a NULL slot.
   */
  method SetNameAndBackground(command: Command, count: nat, ghost toks: seq<string>)
    requires command.args.Length == MaxCommandBytes && command.args[..] == Slots(toks)
    requires count == |toks| <= MaxCommandBytes / 2
    modifies command, command.args
    ensures command.args == old(command.args)
    ensures command.Value() == Assemble(toks)
  {
    var args := command.args;
    SlotsOfTokens(toks);
    command.programName := args[0];
    command.inBackground := false;
    if count > 0 && args[count - 1] == Some(BackgroundMarker) {
      command.inBackground := true;
      args[count - 1] := None;
    }
  }

  /**
   * The loop of parse_command: every token the cursor returns goes into the
   * next slot, until the cursor gives NULL. In C the slots point into the
   * copy; `starts[j]` is the offset that slot j points at. The slots hold
   * every token only if the cursor returns at most 512 of them, which the
   * 1024-byte copy guarantees (CursorTokenBound).
   */
  method StoreTokens(copy: TokenCursor, args: array<Option<string>>) returns (count: nat, ghost starts: seq<nat>)
    requires copy.Valid() && args.Length == MaxCommandBytes
    requires args[..] == Slots([]) && |Drain(copy.Rest())| <= MaxCommandBytes / 2
    modifies copy, copy.buffer, args
    ensures copy.Valid() && copy.buffer == old(copy.buffer) && copy.Rest().None?
    ensures count == |old(Drain(copy.Rest()))|
    ensures args[..] == Slots(old(Drain(copy.Rest())))
    ensures AllHeld(copy.buffer[..], starts, old(Drain(copy.Rest())))
  {
    ghost var toks := Drain(copy.Rest());
    ghost var collected: seq<string> := [];
    count := 0;
    starts := [];
    while true
      invariant copy.Valid() && copy.buffer == old(copy.buffer)
      invariant toks == collected + Drain(copy.Rest())
      invariant count == |collected|
      invariant args[..] == Slots(collected)
      invariant AllHeld(copy.buffer[..], starts, collected)
      decreases Size(copy.Rest())
    {
      ghost var pending := Drain(copy.Rest());
      ghost var before := copy.buffer[..];
      var token;
      ghost var start;
      token, start := copy.NextNonEmptyToken();
      if token.None? {
        assert pending == [] && collected + [] == collected;
        break;
      }
      AllHeldStay(before, copy.buffer[..], starts, collected);
      AllHeldAppend(copy.buffer[..], starts, collected, start, token.value);
      AppendShift(collected, token.value, Drain(copy.Rest()));
      SlotsStore(collected, token.value);
      args[count] := token;
      collected := collected + [token.value];
      starts := starts + [start];
      count := count + 1;
    }
  }

  /** parse_command(command_str). */
  method ParseCommand(commandStr: string) returns (command: Command)
    ensures fresh(command) && fresh(command.args)
    ensures command.Value() == Parse(commandStr)
  {
    var copy := new TokenCursor(Truncate(commandStr));
    command := new Command();
    ghost var toks := Drain(copy.Rest());
    CursorTokenBound(Truncate(commandStr));
    assert command.args[..] == Slots([]);
    var count;
    ghost var starts;
    count, starts := StoreTokens(copy, command.args);
    DrainIsTokens(Truncate(commandStr));
    SetNameAndBackground(command, count, toks);
  }
}
