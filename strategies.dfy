/**
 * The book and its three strategy families. Each family of the program is an
 * abstract base class with two concrete subclasses. Here each family is a
 * closed datatype with one constructor per subclass. Calling the abstract
 * method is a `match` on that datatype. A strategy that prints returns the
 * texts of its `print` calls, one entry per call; a serializer returns its text.
 */
module Strategies {
  import opened Wrappers
  import opened Text
  import Json = JsonEncoding
  import Xml = XmlEncoding

  /** A book: a title and a content, both fixed at construction. */
  datatype Book = Book(title: string, content: string) {

    /** `Book.display`: hands the book to the strategy, which prints the content once. */
    function Display(strategy: DisplayStrategy): (lines: seq<string>)
      ensures strategy == ConsoleDisplay ==> lines == [content]
      ensures strategy == ReverseDisplay ==> lines == [Reverse(content)]
    {
      strategy.Display(this)
    }

    /** `Book.print_book`: hands the book to the strategy, which announces the title, then writes the content. */
    function PrintBook(strategy: PrintStrategy): (lines: seq<string>)
      ensures |lines| == 2 && lines[0] == strategy.Announcement(title)
      ensures lines[1] == if strategy == ConsolePrint then content else Reverse(content)
    {
      strategy.PrintBook(this)
    }

    /** `Book.serialize`: the strategy's text, returned unchanged, which reads back as this book. */
    function Serialize(strategy: SerializeStrategy): (text: string)
      ensures text == strategy.Serialize(this)
      ensures strategy.Read(text) == Some(this)
    {
      SerializeReadsBack(strategy, this);
      strategy.Serialize(this)
    }
  }

  // ---------------------------------------------------------------------------
  // Display
  // ---------------------------------------------------------------------------

  datatype DisplayStrategy = ConsoleDisplay | ReverseDisplay {

    /** The key under which `get_display_strategy` hands out this variant. */
    function Key(): (key: string)
      ensures key == "console" || key == "reverse"
    {
      match this
      case ConsoleDisplay => "console"
      case ReverseDisplay => "reverse"
    }

    /**
     * What `display` prints: one `print` call, the content as it is (console)
     * or mirrored character by character (reverse).
     */
    function Display(book: Book): (lines: seq<string>)
      ensures |lines| == 1
      ensures this == ConsoleDisplay ==> lines[0] == book.content
      ensures this == ReverseDisplay ==>
        |lines[0]| == |book.content| &&
        forall k :: 0 <= k < |book.content| ==> lines[0][k] == book.content[|book.content| - 1 - k]
    {
      match this
      case ConsoleDisplay => [book.content]
      case ReverseDisplay => ReverseIsMirror(book.content); [Reverse(book.content)]
    }
  }

  /** Reversing the reverse display's line gives back the book's content. */
  lemma ReverseDisplayUndoes(book: Book)
    ensures Reverse(ReverseDisplay.Display(book)[0]) == book.content
  {
    ReverseInvolutive(book.content);
  }

  // ---------------------------------------------------------------------------
  // Print
  // ---------------------------------------------------------------------------

  datatype PrintStrategy = ConsolePrint | ReversePrint {

    /** The key under which `get_print_strategy` hands out this variant. */
    function Key(): (key: string)
      ensures key == "console" || key == "reverse"
    {
      match this
      case ConsolePrint => "console"
      case ReversePrint => "reverse"
    }

    /** The words in front of the title in this variant's announcement line. */
    function Lead(): string
    {
      match this
      case ConsolePrint => "Printing the book: "
      case ReversePrint => "Printing the book in reverse: "
    }

    /** The first line `print_book` writes: the lead, the title, then "...". */
    function Announcement(title: string): (line: string)
      ensures Lead() <= line
      ensures line[|Lead()|..] == title + "..."
    {
      Lead() + title + "..."
    }

    /** The display variant whose line follows the announcement. */
    function Body(): DisplayStrategy
    {
      match this
      case ConsolePrint => ConsoleDisplay
      case ReversePrint => ReverseDisplay
    }

    /**
     * The lines `print_book` writes: the announcement naming the title, then
     * the content as the display variant of the same name writes it.
     */
    function PrintBook(book: Book): (lines: seq<string>)
      ensures |lines| == 2
      ensures lines[0] == Announcement(book.title)
      ensures lines[1..] == Body().Display(book)
      ensures Body().Key() == Key()
    {
      [Announcement(book.title)] + Body().Display(book)
    }
  }

  lemma LeadsDiffer(p: PrintStrategy, q: PrintStrategy, t: string, u: string)
    requires p != q
    ensures p.Announcement(t)[17] != q.Announcement(u)[17]
  {
    assert ConsolePrint.Lead()[17] == ':' && ReversePrint.Lead()[17] == ' ';
  }

  /** The announcement line tells the variant and the title apart. */
  lemma AnnouncementDetermines(p: PrintStrategy, q: PrintStrategy, t: string, u: string)
    requires p.Announcement(t) == q.Announcement(u)
    ensures p == q && t == u
  {
    var a := p.Announcement(t);
    if p != q {
      LeadsDiffer(p, q, t, u);
      assert false;
    }
    assert t + "..." == u + "...";
    assert t == (t + "...")[..|t|];
    assert u == (u + "...")[..|u|];
  }

  // ---------------------------------------------------------------------------
  // Serialize
  // ---------------------------------------------------------------------------

  /** The element tree `XmlSerializer` builds: `book` with `title` and `content` children. */
  function BookElement(book: Book): (e: Xml.Element)
    ensures e.tag == "book" && e.text == [] && |e.children| == 2
    ensures e.children[0] == Xml.Element("title", book.title, [])
    ensures e.children[1] == Xml.Element("content", book.content, [])
  {
    Xml.Element("book", [], [Xml.Element("title", book.title, []), Xml.Element("content", book.content, [])])
  }

  /** The members of the dict `JsonSerializer` dumps, in insertion order. */
  function BookMembers(book: Book): seq<Json.Member>
  {
    [("title", book.title), ("content", book.content)]
  }

  /** A book from a JSON text holding exactly a "title" and then a "content" member. */
  function ReadJsonBook(text: string): Option<Book>
  {
    match Json.ParseObject(text)
    case Some(ms) =>
      if |ms| == 2 && ms[0].0 == "title" && ms[1].0 == "content" then Some(Book(ms[0].1, ms[1].1)) else None
    case None => None
  }

  /** A book from `<book>` with a `title` and then a `content` child, and nothing after it. */
  function ReadXmlBook(text: string): Option<Book>
  {
    if "<book>" <= text then
      match Xml.ParseLeaf("title", text[6..])
      case None => None
      case Some((title, r1)) =>
        match Xml.ParseLeaf("content", r1)
        case None => None
        case Some((content, r2)) => if r2 == "</book>" then Some(Book(title, content)) else None
    else None
  }

  datatype SerializeStrategy = JsonSerializer | XmlSerializer {

    /** The key under which `get_serialize_strategy` hands out this variant. */
    function Key(): (key: string)
      ensures key == "json" || key == "xml"
    {
      match this
      case JsonSerializer => "json"
      case XmlSerializer => "xml"
    }

    /** The text `serialize` returns. */
    function Serialize(book: Book): (text: string)
    {
      match this
      case JsonSerializer => Json.Dumps(BookMembers(book))
      case XmlSerializer => Xml.Serialize(BookElement(book))
    }

    /** The reader that takes this variant's text back to a book. */
    function Read(text: string): Option<Book>
    {
      match this
      case JsonSerializer => ReadJsonBook(text)
      case XmlSerializer => ReadXmlBook(text)
    }
  }

  /** Regrouping the pieces of the JSON text around two string literals. */
  lemma JsonPieces(kt: string, kc: string, qt: string, qc: string)
    requires kt == "\"title\"" && kc == "\"content\""
    ensures "{" + ((kt + (": " + qt)) + (", " + (kc + (": " + qc))) + "}") ==
            "{\"title\": " + (qt + (", \"content\": " + (qc + "}")))
  {
    var close := qc + "}";
    Assoc(kc, ": " + qc, "}");
    Assoc(": ", qc, "}");
    Assoc(", ", kc + (": " + qc), "}");
    Assoc(", ", kc, ": " + close);
    Assoc(", " + kc, ": ", close);
    var tail := ", \"content\": " + close;
    assert (", " + (kc + (": " + qc))) + "}" == tail;
    Assoc(kt + (": " + qt), ", " + (kc + (": " + qc)), "}");
    Assoc(kt, ": " + qt, tail);
    Assoc(": ", qt, tail);
    Assoc(kt, ": ", qt + tail);
    Assoc("{", "\"title\": ", qt + tail);
  }

  /** The two keys need no escaping. */
  lemma JsonKeys()
    ensures Json.Quote("title") == "\"title\"" && Json.Quote("content") == "\"content\""
  {
    JsonTitleKey();
    JsonContentKey();
  }

  lemma JsonTitleKey()
    ensures Json.Quote("title") == "\"title\""
  {
    Json.EscapePlainString("title");
  }

  lemma JsonContentKey()
    ensures Json.Quote("content") == "\"content\""
  {
    Json.EscapePlainString("content");
  }

  lemma JsonMembersOfBook(book: Book)
    ensures Json.EncodeMembers(BookMembers(book)) ==
      (Json.Quote("title") + (": " + Json.Quote(book.title))) +
      (", " + (Json.Quote("content") + (": " + Json.Quote(book.content))))
  {
    var ms := BookMembers(book);
    assert ms[1..] == [("content", book.content)];
  }

  /** The JSON text is the object `{"title": …, "content": …}`, keys in that order. */
  lemma JsonShape(book: Book)
    ensures JsonSerializer.Serialize(book) ==
      "{\"title\": " + (Json.Quote(book.title) + (", \"content\": " + (Json.Quote(book.content) + "}")))
  {
    JsonKeys();
    JsonMembersOfBook(book);
    JsonPieces(Json.Quote("title"), Json.Quote("content"), Json.Quote(book.title), Json.Quote(book.content));
  }

  /** Regrouping the pieces of the XML text. */
  lemma XmlPieces(t: string, c: string)
    ensures "<book>" + ([] + ((t + (c + [])) + "</book>")) == "<book>" + (t + (c + "</book>"))
  {
    assert c + [] == c;
    Assoc(t, c, "</book>");
  }

  /**
   * The XML text is `<book>`, the `title` element, the `content` element and
   * `</book>`, with no declaration and no indentation (each child is written as
   * `LeafShape` says: `<title>…</title>`, or `<title />` when the field is empty).
   */
  lemma XmlShape(book: Book)
    ensures XmlSerializer.Serialize(book) ==
      "<book>" + (Xml.Serialize(Xml.Element("title", book.title, []))
               + (Xml.Serialize(Xml.Element("content", book.content, [])) + "</book>"))
  {
    var e := BookElement(book);
    var t, c := Xml.Serialize(e.children[0]), Xml.Serialize(e.children[1]);
    assert e.children[1..] == [e.children[1]];
    assert Xml.SerializeAll(e.children[1..][1..]) == [];
    assert Xml.SerializeAll(e.children) == t + (c + []);
    assert Xml.EscapeCData([]) == [];
    XmlPieces(t, c);
  }

  lemma JsonReadsBack(book: Book)
    ensures ReadJsonBook(JsonSerializer.Serialize(book)) == Some(book)
  {
    Json.DumpsRoundTrip(BookMembers(book));
  }

  lemma XmlReadsBack(book: Book)
    ensures ReadXmlBook(XmlSerializer.Serialize(book)) == Some(book)
  {
    var title := Xml.Serialize(Xml.Element("title", book.title, []));
    var content := Xml.Serialize(Xml.Element("content", book.content, []));
    var text := XmlSerializer.Serialize(book);
    XmlShape(book);
    assert text == "<book>" + (title + (content + "</book>"));
    assert "<book>" <= text;
    assert text[6..] == title + (content + "</book>");
    Xml.LeafDecodes("title", book.title, content + "</book>");
    Xml.LeafDecodes("content", book.content, "</book>");
  }

  /** What each serializer writes, its own reader reads back as the same book. */
  lemma SerializeReadsBack(s: SerializeStrategy, book: Book)
    ensures s.Read(s.Serialize(book)) == Some(book)
  {
    match s
    case JsonSerializer => JsonReadsBack(book);
    case XmlSerializer => XmlReadsBack(book);
  }

  // ---------------------------------------------------------------------------
  // Factories
  // ---------------------------------------------------------------------------

  /** The `ValueError` a factory raises for a key it does not know. */
  datatype StrategyError =
    | UnknownDisplayType(key: string)
    | UnknownPrintType(key: string)
    | UnknownSerializeType(key: string)
  {
    /** The exception's message: the family's words, then the offending key. */
    function Message(): (m: string)
      ensures |m| >= |key| && m[|m| - |key|..] == key
    {
      var lead := match this
        case UnknownDisplayType(_) => "Unknown display type: "
        case UnknownPrintType(_) => "Unknown print type: "
        case UnknownSerializeType(_) => "Unknown serialize type: ";
      lead + key
    }
  }

  /** `get_display_strategy`: "console" and "reverse" give their variants; any other key fails. */
  function GetDisplayStrategy(displayType: string): (r: Result<DisplayStrategy, StrategyError>)
    ensures r.Success? <==> displayType == "console" || displayType == "reverse"
    ensures r.Success? ==> r.value.Key() == displayType
    ensures r.Failure? ==> r.error == UnknownDisplayType(displayType)
  {
    if displayType == "console" then Success(ConsoleDisplay)
    else if displayType == "reverse" then Success(ReverseDisplay)
    else Failure(UnknownDisplayType(displayType))
  }

  /** `get_print_strategy`: "console" and "reverse" give their variants; any other key fails. */
  function GetPrintStrategy(printType: string): (r: Result<PrintStrategy, StrategyError>)
    ensures r.Success? <==> printType == "console" || printType == "reverse"
    ensures r.Success? ==> r.value.Key() == printType
    ensures r.Failure? ==> r.error == UnknownPrintType(printType)
  {
    if printType == "console" then Success(ConsolePrint)
    else if printType == "reverse" then Success(ReversePrint)
    else Failure(UnknownPrintType(printType))
  }

  /** `get_serialize_strategy`: "json" and "xml" give their variants; any other key fails. */
  function GetSerializeStrategy(serializeType: string): (r: Result<SerializeStrategy, StrategyError>)
    ensures r.Success? <==> serializeType == "json" || serializeType == "xml"
    ensures r.Success? ==> r.value.Key() == serializeType
    ensures r.Failure? ==> r.error == UnknownSerializeType(serializeType)
  {
    if serializeType == "json" then Success(JsonSerializer)
    else if serializeType == "xml" then Success(XmlSerializer)
    else Failure(UnknownSerializeType(serializeType))
  }

  /** Every variant is handed out under its own key, so each factory is onto its family. */
  lemma FactoriesReachEveryVariant(d: DisplayStrategy, p: PrintStrategy, s: SerializeStrategy)
    ensures GetDisplayStrategy(d.Key()) == Success(d)
    ensures GetPrintStrategy(p.Key()) == Success(p)
    ensures GetSerializeStrategy(s.Key()) == Success(s)
  {
  }
}
