/**
 * The command runner `main`: it walks a list of (command, strategy key) pairs
 * in order, writing to standard output for `display` and `print`, returning
 * the text of the first `serialize`, skipping any other command name, and
 * letting a factory's error for an unknown key end the run. Standard output is
 * the sequence of lines written so far.
 */
module Runner {
  import opened Wrappers
  import opened Text
  import opened Strategies
  import Xml = XmlEncoding

  /** One entry of `commands`: the command name and the strategy key. */
  datatype Command = Command(name: string, key: string)

  /** How a run ends: the list ran out (`None`), a `serialize` returned, or a factory raised. */
  datatype Outcome = Finished | Serialized(text: string) | Aborted(error: StrategyError)

  /** A run's ending together with the lines written to standard output before it. */
  datatype Execution = Execution(outcome: Outcome, log: seq<string>)

  /** What one command does: write lines and let the run go on, or end the run. */
  datatype Effect = Emit(lines: seq<string>) | Halt(outcome: Outcome)

  /** The effect of one command on the book. */
  function CommandEffect(book: Book, c: Command): Effect
  {
    if c.name == "display" then
      match GetDisplayStrategy(c.key)
      case Success(s) => Emit(book.Display(s))
      case Failure(e) => Halt(Aborted(e))
    else if c.name == "print" then
      match GetPrintStrategy(c.key)
      case Success(s) => Emit(book.PrintBook(s))
      case Failure(e) => Halt(Aborted(e))
    else if c.name == "serialize" then
      match GetSerializeStrategy(c.key)
      case Success(s) => Halt(Serialized(book.Serialize(s)))
      case Failure(e) => Halt(Aborted(e))
    else
      Emit([])
  }

  /** The run `main` performs, command by command. */
  function Execute(book: Book, commands: seq<Command>): Execution
  {
    if commands == [] then Execution(Finished, [])
    else match CommandEffect(book, commands[0])
      case Halt(outcome) => Execution(outcome, [])
      case Emit(lines) =>
        var later := Execute(book, commands[1..]);
        Execution(later.outcome, lines + later.log)
  }

  /** A command that writes lines: the run from it on writes them, then goes on from the next one. */
  lemma StepEmit(book: Book, commands: seq<Command>, i: nat, lines: seq<string>)
    requires i < |commands| && CommandEffect(book, commands[i]) == Emit(lines)
    ensures Execute(book, commands[i..]).outcome == Execute(book, commands[i + 1..]).outcome
    ensures Execute(book, commands[i..]).log == lines + Execute(book, commands[i + 1..]).log
  {
    assert commands[i..][1..] == commands[i + 1..];
  }

  /** A command that ends the run: the run from it on ends there, writing nothing. */
  lemma StepHalt(book: Book, commands: seq<Command>, i: nat, outcome: Outcome)
    requires i < |commands| && CommandEffect(book, commands[i]) == Halt(outcome)
    ensures Execute(book, commands[i..]) == Execution(outcome, [])
  {
  }

  /**
   * `main(book, commands)`: the loop of the program. On return, `outcome` and
   * `log` are the run's ending and everything it wrote.
   */
  method Run(book: Book, commands: seq<Command>) returns (outcome: Outcome, log: seq<string>)
    ensures Execution(outcome, log) == Execute(book, commands)
  {
    log := [];
    var i := 0;
    while i < |commands|
      invariant 0 <= i <= |commands|
      invariant Execute(book, commands).outcome == Execute(book, commands[i..]).outcome
      invariant Execute(book, commands).log == log + Execute(book, commands[i..]).log
    {
      var Command(cmd, methodType) := commands[i];
      ghost var rest := Execute(book, commands[i + 1..]).log;
      if cmd == "display" {
        var strategy := GetDisplayStrategy(methodType);
        if strategy.Failure? {
          StepHalt(book, commands, i, Aborted(strategy.error));
          return Aborted(strategy.error), log;
        }
        var lines := book.Display(strategy.value);
        StepEmit(book, commands, i, lines);
        assert log + (lines + rest) == (log + lines) + rest;
        log := log + lines;
      } else if cmd == "print" {
        var strategy := GetPrintStrategy(methodType);
        if strategy.Failure? {
          StepHalt(book, commands, i, Aborted(strategy.error));
          return Aborted(strategy.error), log;
        }
        var lines := book.PrintBook(strategy.value);
        StepEmit(book, commands, i, lines);
        assert log + (lines + rest) == (log + lines) + rest;
        log := log + lines;
      } else if cmd == "serialize" {
        var strategy := GetSerializeStrategy(methodType);
        if strategy.Failure? {
          StepHalt(book, commands, i, Aborted(strategy.error));
          return Aborted(strategy.error), log;
        }
        StepHalt(book, commands, i, Serialized(book.Serialize(strategy.value)));
        return Serialized(book.Serialize(strategy.value)), log;
      } else {
        StepEmit(book, commands, i, []);
        assert [] + rest == rest;
      }
      i := i + 1;
    }
    outcome := Finished;
    assert log + [] == log;
  }

  // ---------------------------------------------------------------------------
  // One command at a time
  // ---------------------------------------------------------------------------

  /** A command the run goes on after: not `serialize`, and a key its factory accepts. */
  predicate Continues(c: Command)
  {
    c.name != "serialize" &&
    (c.name == "display" ==> c.key == "console" || c.key == "reverse") &&
    (c.name == "print" ==> c.key == "console" || c.key == "reverse")
  }

  /** The lines a command that lets the run go on writes: none for an unknown command name. */
  function CommandLines(book: Book, c: Command): (lines: seq<string>)
    requires Continues(c)
    ensures c.name == "display" ==> |lines| == 1
    ensures c.name == "print" ==> |lines| == 2
    ensures c.name != "display" && c.name != "print" ==> lines == []
  {
    if c.name == "display" then GetDisplayStrategy(c.key).value.Display(book)
    else if c.name == "print" then GetPrintStrategy(c.key).value.PrintBook(book)
    else []
  }

  /** What a command that ends the run ends it with. */
  function HaltOutcome(book: Book, c: Command): (o: Outcome)
    requires !Continues(c)
    ensures o.Aborted? <==> !(c.name == "serialize" && (c.key == "json" || c.key == "xml"))
    ensures o.Serialized? <==> c.name == "serialize" && (c.key == "json" || c.key == "xml")
    ensures c.name == "serialize" && c.key == "json" ==> o == Serialized(JsonSerializer.Serialize(book))
    ensures c.name == "serialize" && c.key == "xml" ==> o == Serialized(XmlSerializer.Serialize(book))
    ensures c.name == "serialize" && o.Aborted? ==> o.error == UnknownSerializeType(c.key)
    ensures c.name == "display" ==> o == Aborted(UnknownDisplayType(c.key))
    ensures c.name == "print" ==> o == Aborted(UnknownPrintType(c.key))
  {
    if c.name == "serialize" then
      match GetSerializeStrategy(c.key)
      case Success(s) => Serialized(book.Serialize(s))
      case Failure(e) => Aborted(e)
    else if c.name == "display" then Aborted(UnknownDisplayType(c.key))
    else Aborted(UnknownPrintType(c.key))
  }

  /** A command either writes its lines and lets the run go on, or ends it without writing. */
  lemma EffectOfCommand(book: Book, c: Command)
    ensures Continues(c) ==> CommandEffect(book, c) == Emit(CommandLines(book, c))
    ensures !Continues(c) ==> CommandEffect(book, c) == Halt(HaltOutcome(book, c))
  {
  }

  /** The lines of a run of commands that all let it go on, in order. */
  function Lines(book: Book, commands: seq<Command>): (lines: seq<string>)
    requires forall i :: 0 <= i < |commands| ==> Continues(commands[i])
  {
    Flatten(seq(|commands|, i requires 0 <= i < |commands| => CommandLines(book, commands[i])))
  }

  lemma {:induction false} LinesCons(book: Book, commands: seq<Command>)
    requires commands != []
    requires forall i :: 0 <= i < |commands| ==> Continues(commands[i])
    ensures Lines(book, commands) == CommandLines(book, commands[0]) + Lines(book, commands[1..])
  {
    var blocks := seq(|commands|, i requires 0 <= i < |commands| => CommandLines(book, commands[i]));
    var rest := seq(|commands| - 1, i requires 0 <= i < |commands| - 1 => CommandLines(book, commands[1..][i]));
    assert blocks[1..] == rest;
  }

  // ---------------------------------------------------------------------------
  // Properties of a run
  // ---------------------------------------------------------------------------

  /**
   * A run in which every command lets it go on returns `None`, and writes each
   * command's lines in order; and a run returns `None` only in that case.
   */
  lemma {:induction false} FinishedRun(book: Book, commands: seq<Command>)
    ensures Execute(book, commands).outcome == Finished <==>
      forall i :: 0 <= i < |commands| ==> Continues(commands[i])
    ensures (forall i :: 0 <= i < |commands| ==> Continues(commands[i])) ==>
      Execute(book, commands).log == Lines(book, commands)
  {
    if commands != [] {
      EffectOfCommand(book, commands[0]);
      FinishedRun(book, commands[1..]);
      if forall i :: 0 <= i < |commands| ==> Continues(commands[i]) {
        LinesCons(book, commands);
      } else if Continues(commands[0]) {
        var i :| 0 <= i < |commands| && !Continues(commands[i]);
        assert !Continues(commands[1..][i - 1]);
      }
    }
  }

  /**
   * The run stops at the first command that does not let it go on: it ends as
   * that command says, having written the lines of the commands before it, and
   * nothing after that command is run.
   */
  lemma {:induction false} StopsAtFirstHalt(book: Book, done: seq<Command>, c: Command, later: seq<Command>)
    requires forall i :: 0 <= i < |done| ==> Continues(done[i])
    requires !Continues(c)
    ensures Execute(book, done + [c] + later) == Execution(HaltOutcome(book, c), Lines(book, done))
  {
    if done == [] {
      assert done + [c] + later == [c] + later;
      EffectOfCommand(book, c);
      assert Flatten([]) == [];
    } else {
      var commands := done + [c] + later;
      assert commands[0] == done[0];
      assert commands[1..] == done[1..] + [c] + later;
      EffectOfCommand(book, done[0]);
      StopsAtFirstHalt(book, done[1..], c, later);
      LinesCons(book, done);
    }
  }

  /** `main` returns the text of the first `serialize` whose key is known, having run nothing after it. */
  lemma FirstSerializeReturns(book: Book, done: seq<Command>, s: SerializeStrategy, later: seq<Command>)
    requires forall i :: 0 <= i < |done| ==> Continues(done[i])
    ensures Execute(book, done + [Command("serialize", s.Key())] + later) ==
      Execution(Serialized(s.Serialize(book)), Lines(book, done))
  {
    var c := Command("serialize", s.Key());
    StopsAtFirstHalt(book, done, c, later);
    FactoriesReachEveryVariant(ConsoleDisplay, ConsolePrint, s);
  }

  /**
   * A key the command's own factory does not know (even one another family
   * accepts) aborts the run with that family's error naming the key, after
   * the earlier commands' lines.
   */
  lemma UnknownKeyAborts(book: Book, done: seq<Command>, c: Command, later: seq<Command>)
    requires forall i :: 0 <= i < |done| ==> Continues(done[i])
    requires c.name == "display" || c.name == "print" || c.name == "serialize"
    requires (c.name == "display" || c.name == "print") ==> c.key != "console" && c.key != "reverse"
    requires c.name == "serialize" ==> c.key != "json" && c.key != "xml"
    ensures var run := Execute(book, done + [c] + later);
      run.log == Lines(book, done) &&
      (c.name == "display" ==> run.outcome == Aborted(UnknownDisplayType(c.key))) &&
      (c.name == "print" ==> run.outcome == Aborted(UnknownPrintType(c.key))) &&
      (c.name == "serialize" ==> run.outcome == Aborted(UnknownSerializeType(c.key)))
  {
    StopsAtFirstHalt(book, done, c, later);
  }

  /** A command with a name other than display, print and serialize is passed over. */
  lemma {:induction false} UnknownCommandSkipped(book: Book, before: seq<Command>, c: Command, after: seq<Command>)
    requires c.name != "display" && c.name != "print" && c.name != "serialize"
    ensures Execute(book, before + [c] + after) == Execute(book, before + after)
  {
    if before == [] {
      assert before + [c] + after == [c] + after;
      assert ([c] + after)[1..] == after;
      assert before + after == after;
    } else {
      var commands := before + [c] + after;
      assert commands[0] == (before + after)[0];
      assert commands[1..] == before[1..] + [c] + after;
      assert (before + after)[1..] == before[1..] + after;
      UnknownCommandSkipped(book, before[1..], c, after);
    }
  }

  /** A run that does not finish ends at its first command that does not let it go on. */
  lemma EndsAtFirstHalt(book: Book, commands: seq<Command>) returns (first: nat)
    requires Execute(book, commands).outcome != Finished
    ensures first < |commands| && !Continues(commands[first])
    ensures Execute(book, commands).outcome == HaltOutcome(book, commands[first])
  {
    FinishedRun(book, commands);
    var k :| 0 <= k < |commands| && !Continues(commands[k]);
    first := FirstHalt(commands, k);
    var done, c, later := commands[..first], commands[first], commands[first + 1..];
    assert forall i :: 0 <= i < |done| ==> done[i] == commands[i];
    SplitAt(commands, first);
    StopsAtFirstHalt(book, done, c, later);
  }

  lemma SplitAt(commands: seq<Command>, i: nat)
    requires i < |commands|
    ensures commands[..i] + [commands[i]] + commands[i + 1..] == commands
  {
  }

  /** Whatever `main` returns as a serialized text reads back as the book. */
  lemma SerializedTextReadsBack(book: Book, commands: seq<Command>)
    requires Execute(book, commands).outcome.Serialized?
    ensures var text := Execute(book, commands).outcome.text;
      ReadJsonBook(text) == Some(book) || ReadXmlBook(text) == Some(book)
  {
    var first := EndsAtFirstHalt(book, commands);
    var s := GetSerializeStrategy(commands[first].key).value;
    SerializeReadsBack(s, book);
  }

  /** The position of the first command that ends a run, given one that does. */
  function FirstHalt(commands: seq<Command>, k: nat): (i: nat)
    requires k < |commands| && !Continues(commands[k])
    ensures i <= k && !Continues(commands[i])
    ensures forall j :: 0 <= j < i ==> Continues(commands[j])
  {
    if exists j :: 0 <= j < k && !Continues(commands[j]) then
      var j :| 0 <= j < k && !Continues(commands[j]);
      FirstHalt(commands, j)
    else k
  }

  /** The sample book of the program's own demonstration. */
  function SampleBook(): Book
  {
    Book("Sample Book", "This is some sample content.")
  }

  lemma SampleDisplay()
    ensures ReverseDisplay.Display(SampleBook()) == [".tnetnoc elpmas emos si sihT"]
  {
    MirrorIsReverse(SampleBook().content, ".tnetnoc elpmas emos si sihT");
  }

  lemma SampleTitle()
    ensures Xml.Serialize(Xml.Element("title", "Sample Book", [])) ==
      Xml.StartTag("title") + ("Sample Book" + Xml.EndTag("title"))
  {
    Xml.PlainLeaf("title", "Sample Book");
  }

  lemma SampleContent()
    ensures Xml.Serialize(Xml.Element("content", "This is some sample content.", [])) ==
      Xml.StartTag("content") + ("This is some sample content." + Xml.EndTag("content"))
  {
    Xml.PlainLeaf("content", "This is some sample content.");
  }

  lemma SampleTags()
    ensures Xml.StartTag("title") == "<title>" && Xml.EndTag("title") == "</title>"
    ensures Xml.StartTag("content") == "<content>" && Xml.EndTag("content") == "</content>"
  {
  }

  lemma SampleXml()
    ensures XmlSerializer.Serialize(SampleBook()) ==
      "<book>" + ("<title>" + ("Sample Book" + "</title>") +
                  ("<content>" + ("This is some sample content." + "</content>") + "</book>"))
  {
    var book := SampleBook();
    XmlShape(book);
    SampleTitle();
    SampleContent();
    SampleTags();
  }

  /** The demonstration's two commands: the reverse display's line, then the XML text. */
  lemma SampleSteps(book: Book)
    ensures Execute(book, [Command("display", "reverse"), Command("serialize", "xml")]) ==
      Execution(Serialized(XmlSerializer.Serialize(book)), ReverseDisplay.Display(book))
  {
    var commands := [Command("display", "reverse"), Command("serialize", "xml")];
    assert commands[1..] == [Command("serialize", "xml")];
    assert commands[1..][1..] == [];
  }

  /**
   * The program's own demonstration: the reverse display writes the content
   * mirrored, then the XML serializer's text is returned.
   */
  lemma SampleRun()
    ensures Execute(SampleBook(), [Command("display", "reverse"), Command("serialize", "xml")]) ==
      Execution(Serialized("<book>" + ("<title>" + ("Sample Book" + "</title>") +
                                       ("<content>" + ("This is some sample content." + "</content>") + "</book>"))),
                [".tnetnoc elpmas emos si sihT"])
  {
    SampleSteps(SampleBook());
    SampleDisplay();
    SampleXml();
  }
}
