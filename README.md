# Book strategy service: a Dafny model

`app/main.py` is a small demonstration of the strategy pattern. A `Book` has a
`title` and a `content`. Three families of strategies act on it:

- display: `ConsoleDisplay` and `ReverseDisplay`;
- print: `ConsolePrint` and `ReversePrint`;
- serialize: `JsonSerializer` and `XmlSerializer`.

Three factories map a string key to a strategy and raise `ValueError` for any
other key. The runner `main(book, commands)` works through a list of
`(command, key)` pairs in order:

- `display` and `print` write to standard output;
- the first `serialize` returns the text it produces;
- any other command name is passed over;
- an unknown key raises and ends the run.

The model has these files:

- `wrappers.dfy`: `Option` and `Result`.
- `text.dfy`: string reversal (`content[::-1]`) and flattening of line blocks.
- `json_encoding.dfy`: the text `json.dumps` writes for a dict of strings with
  default arguments. Strings are escaped with `ensure_ascii`: the short escapes,
  lower-case `\uXXXX`, and surrogate pairs above U+FFFF. The separators are `", "`
  and `": "`. Beside it is a reference decoder for a subset of the JSON
  grammar of RFC 8259: one object whose member values are all strings. Unlike
  the RFC grammar, it rejects a `\u` escape of a lone surrogate such as
  `\ud800`.
- `xml_encoding.dfy`: the text `ElementTree.tostring(root, encoding="unicode")`
  writes for elements without attributes. It has no declaration and no
  indentation. `&`, `<` and `>` are escaped in text, and an empty element is
  written `<tag />`. Beside it is a reader for text-only elements that
  decodes the predefined entities of section 4.6 of the XML 1.0
  recommendation. The reader is the writer's own inverse, not a conforming
  XML 1.0 parser (see "## Left out").
- `strategies.dfy`: the book, one closed datatype per strategy family (one
  constructor per subclass, and a `match` where Python dispatches on the
  class), the error raised for an unknown key, and the three factories.
- `runner.dfy`: `main`.
  - `Runner.Run` is a method with the same loop and early returns as `main`.
    It is proved equal to the recursive specification `Runner.Execute`.
  - Standard output is modelled as the list of lines written so far, the
    `log`.
  - A run ends in one of three ways: `Finished` (Python's `None`),
    `Serialized(text)`, or `Aborted(error)` for the raised `ValueError`.

The serializers are modelled with their real escaping, not with an abstract
escape function. So the model can prove that the text each serializer returns
reads back as the same book through that serializer's reader. For JSON the
reader is the subset decoder above. It also requires exactly two members, the
keys "title" and then "content". For XML the reader is the writer's inverse
only. The JSON and
XML library code is not part of this model. Both encoders follow the behaviour
those libraries document.

## Model

| member | source | states |
|---|---|---|
| Strategies.DisplayStrategy.Display | app/main.py:12-19 | Display makes exactly one `print` call. For the console variant the line is the content as it is. For the reverse variant it has the content's length, and its k-th character is the content's character k places from the end. |
| Strategies.ReverseDisplayUndoes | app/main.py:17-19 | Reversing the reverse display's line gives back the book's content. |
| Text.ReverseInvolutive | app/main.py:19 | Reversing a string twice gives the string back. |
| Text.MirrorIsReverse | app/main.py:19 | A string of the same length whose characters mirror another's is that string's reverse. This characterizes `[::-1]` completely. |
| Strategies.PrintStrategy.Announcement | app/main.py:30 | The announcement starts with the variant's lead words and goes on with the title followed by "...". |
| Strategies.PrintStrategy.PrintBook | app/main.py:28-37 | Printing makes exactly two `print` calls. The first is the announcement naming the title. The rest is what the display variant of the same key writes: the content, reversed for the reverse variant. |
| Strategies.AnnouncementDetermines | app/main.py:30 | Two equal announcement lines come from the same print variant and the same title. The console and reverse leads cannot be confused. |
| Strategies.Book.Display | app/main.py:66-67 | `Book.display` with the console strategy writes the single line `content`. With the reverse strategy it writes the single line `content` reversed. |
| Strategies.Book.PrintBook | app/main.py:69-70 | `Book.print_book` writes two lines: the strategy's announcement of the title, then the content, reversed for the reverse strategy. |
| Strategies.Book.Serialize | app/main.py:72-73 | `Book.serialize` returns the strategy's text unchanged, and that variant's reader reads the text back as the same book. |
| Strategies.StrategyError.Message | app/main.py:82 | The message of the raised error ends with the offending key. |
| Strategies.GetDisplayStrategy | app/main.py:76-82 | The factory succeeds exactly for "console" and "reverse" and returns the variant handed out under that key. Any other key fails with the display error naming the key. |
| Strategies.GetPrintStrategy | app/main.py:85-91 | The factory succeeds exactly for "console" and "reverse" and returns the variant under that key. Any other key fails with the print error naming the key. |
| Strategies.GetSerializeStrategy | app/main.py:94-100 | The factory succeeds exactly for "json" and "xml" and returns the variant under that key. Any other key fails with the serialize error naming the key. |
| Strategies.FactoriesReachEveryVariant | app/main.py:76-100 | Each factory hands out every variant of its family under that variant's own key. |
| Strategies.JsonShape | app/main.py:46-48 | The JSON text is `{"title": ` followed by the quoted title, `, "content": `, the quoted content and `}`. The keys are "title" then "content", in that order. |
| Strategies.JsonReadsBack | app/main.py:46-48 | The JSON text parses back to the same book. |
| Strategies.XmlShape | app/main.py:51-58 | The XML text is `<book>`, then the serialized `title` element, then the serialized `content` element, then `</book>`, with no declaration and no whitespace. |
| Strategies.XmlReadsBack | app/main.py:51-58 | The XML text reads back to the same book through the model's own XML reader. |
| Strategies.SerializeReadsBack | app/main.py:46-58 | For either serializer, its own reader reads its text back as the book. |
| XmlEncoding.LeafShape | app/main.py:54-58 | A text-only child is written `<tag>` + escaped text + `</tag>`, or `<tag />` when the text is empty. |
| XmlEncoding.PlainLeaf | app/main.py:54-58 | Non-empty text without `&`, `<` or `>` is written between the tags unchanged. |
| XmlEncoding.EscapeCDataDecodes | app/main.py:58 | Escaped character data decodes back to the original text, up to the next markup. |
| XmlEncoding.EscapeCDataHasNoMarkup | app/main.py:58 | Escaped character data contains no `<` and no `>`. |
| XmlEncoding.EscapeCDataPlain | app/main.py:58 | Text without `&`, `<` or `>` is written unchanged. |
| XmlEncoding.LeafDecodes | app/main.py:54-58 | A text-only element, in either form, reads back as its text, leaving whatever follows it. |
| JsonEncoding.Hex4RoundTrip | app/main.py:48 | The four lower-case hex digits of a `\u` escape parse back to the same code unit. |
| JsonEncoding.EscapeCharDecodes | app/main.py:48 | The escape of any character, including a surrogate pair above U+FFFF, decodes back to that character. |
| JsonEncoding.EscapeStringDecodes | app/main.py:48 | An escaped string body decodes back to the original string, up to its closing quote. |
| JsonEncoding.QuoteDecodes | app/main.py:48 | A quoted string parses back to the original string. |
| JsonEncoding.EncodeMembersDecodes | app/main.py:48 | The comma-separated members parse back to the same members in the same order. |
| JsonEncoding.DumpsRoundTrip | app/main.py:48 | The dumped object parses back to the same members in the same order. |
| JsonEncoding.EscapeCharIsAscii | app/main.py:48 | Every character is written as non-empty printable ASCII. A character is written as itself exactly when it is printable ASCII other than `"` and `\`. |
| JsonEncoding.DumpsIsAscii | app/main.py:48 | The whole JSON text is printable ASCII. |
| JsonEncoding.EscapePlainString | app/main.py:48 | Printable ASCII without quote or backslash is written as itself. |
| Strategies.DisplayStrategy.Key | app/main.py:77-80 | The variant's key is "console" or "reverse". `FactoriesReachEveryVariant` proves that the display factory gives this variant back for its key. |
| Strategies.PrintStrategy.Key | app/main.py:86-89 | The variant's key is "console" or "reverse". `FactoriesReachEveryVariant` proves that the print factory gives this variant back for its key. |
| Strategies.SerializeStrategy.Key | app/main.py:95-98 | The variant's key is "json" or "xml". `FactoriesReachEveryVariant` proves that the serialize factory gives this variant back for its key. |
| Strategies.SerializeStrategy.Serialize | app/main.py:46-58 | `JsonSerializer.serialize` and `XmlSerializer.serialize`. This function has no ensures. Its layout is stated by `JsonShape` and `XmlShape`, and its read-back by `SerializeReadsBack`. |
| Strategies.BookMembers | app/main.py:48 | The dict passed to `json.dumps`: "title" and then "content". This function has no ensures. `JsonShape` states the text it yields and `JsonReadsBack` its read-back. |
| Strategies.BookElement | app/main.py:53-57 | The tree built for `ET.tostring`: a `book` element with no text, holding exactly two text-only children, `title` with the title and then `content` with the content. |
| JsonEncoding.Dumps | app/main.py:48 | The `json.dumps` call. This function has no ensures. `DumpsRoundTrip` proves it is undone by the decoder, and `DumpsIsAscii` that its output is printable ASCII. |
| JsonEncoding.EscapeChar | app/main.py:48 | How `json.dumps` writes one character. This function has no ensures. `EscapeCharDecodes` and `EscapeCharIsAscii` carry its properties. |
| XmlEncoding.Serialize | app/main.py:58 | The `ET.tostring` call. This function has no ensures. `LeafShape`, `XmlShape` and `LeafDecodes` carry its properties. |
| XmlEncoding.EscapeCData | app/main.py:58 | How `ET.tostring` escapes text. This function has no ensures. `EscapeCDataDecodes`, `EscapeCDataHasNoMarkup` and `EscapeCDataPlain` carry its properties. |
| Runner.CommandEffect | app/main.py:105-113 | One pass through the loop body of `main`. This function has no ensures. `EffectOfCommand`, `CommandLines` and `HaltOutcome` state what each command does. |
| Runner.Execute | app/main.py:103-113 | The run of `main`, command by command: the specification that `Run` is proved equal to. This function has no ensures. `FinishedRun`, `StopsAtFirstHalt`, `FirstSerializeReturns`, `UnknownKeyAborts`, `UnknownCommandSkipped` and `EndsAtFirstHalt` state its properties. |
| Runner.Run | app/main.py:103-113 | The loop's outcome and written lines are exactly those of the specification `Execute`. |
| Runner.EffectOfCommand | app/main.py:104-113 | A command either writes its lines and lets the run go on, or ends it having written nothing. |
| Runner.CommandLines | app/main.py:105-110 | A display command that goes on writes one line, a print command writes two, and any other name writes none. |
| Runner.HaltOutcome | app/main.py:105-113 | A command that ends the run returns a text exactly when it is `serialize` with key "json" or "xml": the JSON or the XML text of the book. Otherwise it aborts, never finishes. The error is the display, print or serialize error, as the command's name says, and names its key. |
| Runner.FinishedRun | app/main.py:104-110 | The run returns `None` exactly when every command lets it go on. It then writes each command's lines in order. |
| Runner.StopsAtFirstHalt | app/main.py:104-113 | The run ends as the first command that does not let it go on says. It writes only the lines of the commands before it, and nothing after it is run. |
| Runner.FirstSerializeReturns | app/main.py:111-113 | After commands that go on, a `serialize` with a known key returns that serializer's text of the book. Only the earlier lines are written, and nothing after it runs. |
| Runner.UnknownKeyAborts | app/main.py:105-113 | A key that the command's own factory rejects aborts the run, even when another family accepts it (for example `("display", "json")`). The error is that family's and names the key. Only the earlier commands' lines are written. |
| Runner.UnknownCommandSkipped | app/main.py:104-113 | Inserting a command with any other name anywhere changes neither the outcome nor the lines written. |
| Runner.EndsAtFirstHalt | app/main.py:104-113 | A run that does not return `None` ends with the outcome of its first command that does not go on. |
| Runner.FirstHalt | app/main.py:104 | Given a command that ends runs, this finds the first such command: every command before it goes on. |
| Runner.SerializedTextReadsBack | app/main.py:111-113 | Whatever text `main` returns reads back as the book, as JSON or as XML. |
| Runner.SampleDisplay | app/main.py:117-118 | The reverse display of the sample book writes ".tnetnoc elpmas emos si sihT". |
| Runner.SampleXml | app/main.py:117-118 | The XML text of the sample book is `<book><title>Sample Book</title><content>This is some sample content.</content></book>`. |
| Runner.SampleRun | app/main.py:116-118 | The demonstration's run writes the reversed content and then returns the XML text above. |

## Left out

- Standard output: each `print` call is modelled as one log entry holding the text it writes. A text holding `\n` is still one entry, not several output lines. Buffering and I/O errors are not modelled.
- The `abc`/`abstractmethod` machinery: each family is a closed datatype, so an abstract strategy, or an object without the method, cannot be passed.
- Dynamic typing: titles, contents, command names and keys are strings. A book whose fields are `None` or other objects is not modelled.
- The code of `json` and `xml.etree.ElementTree` is not part of this model. Both encoders are written from the behaviour those libraries document for these arguments.
- Lone surrogates cannot be modelled: a Dafny `char` is a Unicode scalar value, so they never occur in a string.
- XML attributes, tails and namespaces are not modelled, since the serializer never sets them.
- Strategies.XmlReadsBack: the text is read back by the model's own reader, the writer's inverse, not by a conforming XML 1.0 parser. The reader accepts every character and keeps `\r` as it is. A conforming parser rejects characters outside the Char production of section 2.2 (such as U+0001) and turns `\r` into `\n` (section 2.11). `ElementTree.tostring` escapes neither, so a book holding such characters does not round-trip through a standard parser.
- The XML reader handles only predefined entities. It does not handle numeric character references, comments, CDATA sections or whitespace inside tags, none of which the serializer writes. It keeps a lone `>` in text as it is.
- `XmlEncoding.EscapeCData` escapes character by character, while the library makes three successive `replace` passes, `&` first. The results are the same, because no replacement brings in a character that a later pass replaces.
- The `if __name__ == "__main__":` block's printing of the result is I/O. Its inputs are used in `Runner.SampleRun`.
