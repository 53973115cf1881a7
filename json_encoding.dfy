/**
 * The text that Python's `json.dumps` produces for a `dict` whose keys and
 * values are all `str`, with its default arguments (`ensure_ascii=True`,
 * separators ", " and ": ", keys in insertion order), and a reference decoder
 * for that text following the JSON grammar of RFC 8259 (restricted to objects
 * whose member values are strings).
 */
module JsonEncoding {
  import opened Wrappers
  import opened Text

  /** One `"key": "value"` pair of an object, in insertion order. */
  type Member = (string, string)

  // ---------------------------------------------------------------------------
  // Hexadecimal digits of `\uXXXX` escapes (json.dumps writes lower case)
  // ---------------------------------------------------------------------------

  /** The value of one hexadecimal digit, upper or lower case. */
  function HexValue(c: char): (v: Option<nat>)
    ensures v.Some? ==> v.value < 16
    ensures v.Some? <==> ('0' <= c <= '9' || 'a' <= c <= 'f' || 'A' <= c <= 'F')
  {
    if '0' <= c <= '9' then Some(c as int - '0' as int)
    else if 'a' <= c <= 'f' then Some(c as int - 'a' as int + 10)
    else if 'A' <= c <= 'F' then Some(c as int - 'A' as int + 10)
    else None
  }

  /** The lower-case digit for d. */
  function HexDigit(d: nat): (c: char)
    requires d < 16
    ensures HexValue(c) == Some(d)
    ensures '0' <= c <= '9' || 'a' <= c <= 'f'
  {
    if d < 10 then ('0' as int + d) as char else ('a' as int + d - 10) as char
  }

  /** Four lower-case hexadecimal digits, most significant first. */
  function Hex4(n: nat): (h: string)
    requires n < 0x1_0000
    ensures |h| == 4
  {
    [HexDigit(n / 16 / 16 / 16), HexDigit(n / 16 / 16 % 16), HexDigit(n / 16 % 16), HexDigit(n % 16)]
  }

  /** The number written by four hexadecimal digits of either case. */
  function ParseHex4(h: string): (n: Option<nat>)
    requires |h| == 4
    ensures n.Some? ==> n.value < 0x1_0000
  {
    match (HexValue(h[0]), HexValue(h[1]), HexValue(h[2]), HexValue(h[3]))
    case (Some(a), Some(b), Some(c), Some(d)) => Some(((a * 16 + b) * 16 + c) * 16 + d)
    case _ => None
  }

  lemma Hex4RoundTrip(n: nat)
    requires n < 0x1_0000
    ensures ParseHex4(Hex4(n)) == Some(n)
  {
    var q1 := n / 16;
    var q2 := q1 / 16;
    assert n == q1 * 16 + n % 16;
    assert q1 == q2 * 16 + q1 % 16;
    assert q2 == q2 / 16 * 16 + q2 % 16;
  }

  // ---------------------------------------------------------------------------
  // Encoding
  // ---------------------------------------------------------------------------

  predicate Printable(c: char)
  {
    ' ' <= c <= '~'
  }

  predicate AllPrintable(s: string)
  {
    forall i :: 0 <= i < |s| ==> Printable(s[i])
  }

  /** `\u` followed by four lower-case hexadecimal digits of a UTF-16 unit. */
  function UnicodeEscape(unit: nat): (e: string)
    requires unit < 0x1_0000
    ensures |e| == 6 && e[..2] == "\\u" && e[2..] == Hex4(unit)
  {
    "\\u" + Hex4(unit)
  }

  /** The two-character escape json.dumps writes for c, if it has one. */
  function ShortEscape(c: char): Option<string>
  {
    if c == '"' then Some("\\\"")
    else if c == '\\' then Some("\\\\")
    else if c == '\U{8}' then Some("\\b")
    else if c == '\U{C}' then Some("\\f")
    else if c == '\n' then Some("\\n")
    else if c == '\r' then Some("\\r")
    else if c == '\t' then Some("\\t")
    else None
  }

  /** The UTF-16 high and low surrogates that encode a character above U+FFFF. */
  function Surrogates(c: char): (units: (nat, nat))
    requires c as int >= 0x1_0000
    ensures 0xD800 <= units.0 < 0xDC00 && 0xDC00 <= units.1 < 0xE000
  {
    var v := c as int - 0x1_0000;
    (0xD800 + v / 0x400, 0xDC00 + v % 0x400)
  }

  /**
   * How one character of a string is written inside the quotes: the two-character
   * escapes for quote, backslash, backspace, form feed, newline, carriage return
   * and tab; the rest of printable ASCII as itself; anything else as `\uXXXX`,
   * and above U+FFFF by a UTF-16 surrogate pair of two such escapes.
   */
  function EscapeChar(c: char): (e: string)
  {
    match ShortEscape(c)
    case Some(e) => e
    case None =>
      if Printable(c) then [c]
      else if (c as int) < 0x1_0000 then UnicodeEscape(c as int)
      else UnicodeEscape(Surrogates(c).0) + UnicodeEscape(Surrogates(c).1)
  }

  /** The characters of s, each escaped. */
  function EscapeString(s: string): (e: string)
  {
    if s == [] then [] else EscapeChar(s[0]) + EscapeString(s[1..])
  }

  /** A JSON string literal for s: the escaped characters between double quotes. */
  function Quote(s: string): (q: string)
  {
    "\"" + (EscapeString(s) + "\"")
  }

  function EncodeMember(m: Member): string
  {
    Quote(m.0) + (": " + Quote(m.1))
  }

  function EncodeMembers(ms: seq<Member>): string
  {
    if ms == [] then ""
    else if |ms| == 1 then EncodeMember(ms[0])
    else EncodeMember(ms[0]) + (", " + EncodeMembers(ms[1..]))
  }

  /** The text of `json.dumps` applied to a dict with these members, in this order. */
  function Dumps(ms: seq<Member>): (text: string)
  {
    "{" + (EncodeMembers(ms) + "}")
  }

  // ---------------------------------------------------------------------------
  // Decoding (the reference reader for the text produced above)
  // ---------------------------------------------------------------------------

  predicate IsWhitespace(c: char)
  {
    c == ' ' || c == '\t' || c == '\n' || c == '\r'
  }

  function SkipWhitespace(s: string): (r: string)
    ensures |r| <= |s|
    ensures r == [] || !IsWhitespace(r[0])
  {
    if s != [] && IsWhitespace(s[0]) then SkipWhitespace(s[1..]) else s
  }

  /** The character of a simple two-character escape `\x`, if x names one. */
  function SimpleEscape(x: char): Option<char>
  {
    if x == '"' then Some('"')
    else if x == '\\' then Some('\\')
    else if x == '/' then Some('/')
    else if x == 'b' then Some('\U{8}')
    else if x == 'f' then Some('\U{C}')
    else if x == 'n' then Some('\n')
    else if x == 'r' then Some('\r')
    else if x == 't' then Some('\t')
    else None
  }

  /** The character a high and a low surrogate stand for together. */
  function Combine(hi: nat, lo: nat): (c: char)
    requires 0xD800 <= hi < 0xDC00 && 0xDC00 <= lo < 0xE000
    ensures c as int >= 0x1_0000
  {
    (0x1_0000 + (hi - 0xD800) * 0x400 + (lo - 0xDC00)) as char
  }

  /**
   * A `\uXXXX` escape at the head of s (after the backslash and `u`), completed
   * by a second `\uXXXX` when the first is a high surrogate. Lone surrogates are
   * rejected, since they are not characters.
   */
  function DecodeUnicode(s: string): (r: Option<(char, string)>)
    ensures r.Some? ==> |r.value.1| < |s|
  {
    if |s| < 4 then None
    else match ParseHex4(s[..4])
      case None => None
      case Some(hi) =>
        if 0xD800 <= hi < 0xDC00 then
          if |s| < 10 || s[4..6] != "\\u" then None
          else match ParseHex4(s[6..10])
            case None => None
            case Some(lo) => if 0xDC00 <= lo < 0xE000 then Some((Combine(hi, lo), s[10..])) else None
        else if 0xDC00 <= hi < 0xE000 then None
        else Some((hi as char, s[4..]))
  }

  /** One character of a string literal's body (not its closing quote) and the rest. */
  function DecodeChar(s: string): (r: Option<(char, string)>)
    requires s != []
    ensures r.Some? ==> |r.value.1| < |s|
  {
    if s[0] == '\\' then
      if |s| < 2 then None
      else if s[1] == 'u' then DecodeUnicode(s[2..])
      else match SimpleEscape(s[1])
        case None => None
        case Some(c) => Some((c, s[2..]))
    else if (s[0] as int) < 0x20 then None
    else Some((s[0], s[1..]))
  }

  /**
   * Decodes the characters of a string literal after its opening quote, up to
   * and including the closing quote: the decoded string and what follows it.
   */
  function ParseStringBody(s: string): (r: Option<(string, string)>)
    ensures r.Some? ==> |r.value.1| < |s|
    decreases |s|
  {
    if s == [] then None
    else if s[0] == '"' then Some(([], s[1..]))
    else match DecodeChar(s)
      case None => None
      case Some((c, rest)) =>
        match ParseStringBody(rest)
        case None => None
        case Some((body, after)) => Some(([c] + body, after))
  }

  /** A string literal at the head of s and what follows it. */
  function ParseString(s: string): (r: Option<(string, string)>)
    ensures r.Some? ==> |r.value.1| < |s|
  {
    if s != [] && s[0] == '"' then ParseStringBody(s[1..]) else None
  }

  /** `"key" : "value"` with optional whitespace, and the rest after trailing whitespace. */
  function ParseMember(s: string): (r: Option<(Member, string)>)
    ensures r.Some? ==> |r.value.1| < |s|
  {
    match ParseString(s)
    case None => None
    case Some((key, r1)) =>
      var r2 := SkipWhitespace(r1);
      if r2 == [] || r2[0] != ':' then None
      else match ParseString(SkipWhitespace(r2[1..]))
        case None => None
        case Some((value, r3)) => Some(((key, value), SkipWhitespace(r3)))
  }

  /** One or more members separated by commas, through the closing brace. */
  function ParseMembers(s: string): (r: Option<(seq<Member>, string)>)
    decreases |s|
  {
    match ParseMember(s)
    case None => None
    case Some((m, r1)) =>
      if r1 != [] && r1[0] == '}' then Some(([m], r1[1..]))
      else if r1 != [] && r1[0] == ',' then
        match ParseMembers(SkipWhitespace(r1[1..]))
        case None => None
        case Some((ms, r2)) => Some(([m] + ms, r2))
      else None
  }

  /** The members of a JSON text that is one object with string values, in order. */
  function ParseObject(text: string): Option<seq<Member>>
  {
    var s := SkipWhitespace(text);
    if s == [] || s[0] != '{' then None
    else
      var s1 := SkipWhitespace(s[1..]);
      if s1 != [] && s1[0] == '}' then
        if SkipWhitespace(s1[1..]) == [] then Some([]) else None
      else match ParseMembers(s1)
        case None => None
        case Some((ms, rest)) => if SkipWhitespace(rest) == [] then Some(ms) else None
  }

  // ---------------------------------------------------------------------------
  // Round trip
  // ---------------------------------------------------------------------------

  lemma ShortEscapeDecodes(c: char, e: string, rest: string)
    requires ShortEscape(c) == Some(e)
    ensures DecodeChar(e + rest) == Some((c, rest))
  {
    assert (e + rest)[2..] == rest;
  }

  lemma BmpEscapeDecodes(c: char, rest: string)
    requires !Printable(c) && c as int < 0x1_0000
    ensures DecodeChar(UnicodeEscape(c as int) + rest) == Some((c, rest))
  {
    var s := UnicodeEscape(c as int) + rest;
    assert s[2..] == Hex4(c as int) + rest;
    assert (s[2..])[..4] == Hex4(c as int);
    assert (s[2..])[4..] == rest;
    Hex4RoundTrip(c as int);
  }

  lemma CombineSurrogates(c: char)
    requires c as int >= 0x1_0000
    ensures Combine(Surrogates(c).0, Surrogates(c).1) == c
  {
  }

  lemma AstralEscapeDecodes(c: char, rest: string)
    requires c as int >= 0x1_0000
    ensures DecodeChar(UnicodeEscape(Surrogates(c).0) + UnicodeEscape(Surrogates(c).1) + rest) == Some((c, rest))
  {
    var (hi, lo) := Surrogates(c);
    var s := UnicodeEscape(hi) + UnicodeEscape(lo) + rest;
    var t := s[2..];
    assert t == Hex4(hi) + "\\u" + Hex4(lo) + rest;
    assert t[..4] == Hex4(hi);
    assert t[4..6] == "\\u";
    assert t[6..10] == Hex4(lo);
    assert t[10..] == rest;
    Hex4RoundTrip(hi);
    Hex4RoundTrip(lo);
    CombineSurrogates(c);
  }

  /** Decoding one escaped character yields it and continues after its escape. */
  lemma EscapeCharDecodes(c: char, rest: string)
    ensures EscapeChar(c) + rest != [] && (EscapeChar(c) + rest)[0] != '"'
    ensures DecodeChar(EscapeChar(c) + rest) == Some((c, rest))
  {
    match ShortEscape(c)
    case Some(e) =>
      ShortEscapeDecodes(c, e, rest);
    case None =>
      if Printable(c) {
        assert ([c] + rest)[1..] == rest;
      } else if (c as int) < 0x1_0000 {
        BmpEscapeDecodes(c, rest);
      } else {
        AstralEscapeDecodes(c, rest);
      }
  }

  lemma {:induction false} EscapeStringDecodes(t: string, rest: string)
    ensures ParseStringBody(EscapeString(t) + "\"" + rest) == Some((t, rest))
  {
    if t == [] {
      assert EscapeString(t) + "\"" + rest == "\"" + rest;
    } else {
      var tail := EscapeString(t[1..]) + "\"" + rest;
      assert EscapeString(t) + "\"" + rest == EscapeChar(t[0]) + tail;
      EscapeCharDecodes(t[0], tail);
      EscapeStringDecodes(t[1..], rest);
      assert [t[0]] + t[1..] == t;
    }
  }

  /** A string literal reads back as the string it was written for. */
  lemma QuoteDecodes(t: string, rest: string)
    ensures ParseString(Quote(t) + rest) == Some((t, rest))
  {
    var s := Quote(t) + rest;
    assert s[1..] == EscapeString(t) + "\"" + rest;
    EscapeStringDecodes(t, rest);
  }

  lemma SkipNothing(s: string)
    requires s != [] && !IsWhitespace(s[0])
    ensures SkipWhitespace(s) == s
  {
  }

  lemma SkipOneSpace(s: string)
    ensures SkipWhitespace(" " + s) == SkipWhitespace(s)
  {
    assert (" " + s)[1..] == s;
  }

  /** A member followed by a comma or a closing brace reads back as itself. */
  lemma EncodeMemberDecodes(m: Member, rest: string)
    requires rest != [] && (rest[0] == ',' || rest[0] == '}')
    ensures ParseMember(EncodeMember(m) + rest) == Some((m, rest))
  {
    var value := Quote(m.1) + rest;
    var tail := ": " + value;
    assert EncodeMember(m) + rest == Quote(m.0) + tail;
    QuoteDecodes(m.0, tail);
    SkipNothing(tail);
    assert tail[1..] == " " + value;
    SkipOneSpace(value);
    SkipNothing(value);
    QuoteDecodes(m.1, rest);
    SkipNothing(rest);
  }

  lemma MemberStartsWithQuote(m: Member, rest: string)
    ensures EncodeMember(m) + rest != [] && (EncodeMember(m) + rest)[0] == '"'
  {
    var q := Quote(m.0);
    assert |q| > 0 && q[0] == '"';
    assert |EncodeMember(m)| > 0 && EncodeMember(m)[0] == '"';
  }

  lemma MembersStartWithQuote(ms: seq<Member>)
    requires ms != []
    ensures EncodeMembers(ms) != [] && EncodeMembers(ms)[0] == '"'
  {
    if |ms| > 1 {
      MemberStartsWithQuote(ms[0], ", " + EncodeMembers(ms[1..]));
    } else {
      MemberStartsWithQuote(ms[0], "");
      assert EncodeMember(ms[0]) + "" == EncodeMember(ms[0]);
    }
  }

  /** After a first member and a comma, ParseMembers reads on with the next member. */
  lemma ParseMembersStep(s: string, m: Member, later: string)
    requires ParseMember(s) == Some((m, ", " + later))
    requires later != [] && later[0] == '"'
    ensures ParseMembers(s) == match ParseMembers(later)
                               case None => None
                               case Some((ms, r)) => Some(([m] + ms, r))
  {
    var r1 := ", " + later;
    assert r1[1..] == " " + later;
    SkipOneSpace(later);
    SkipNothing(later);
  }

  /** After the last member and the closing brace, ParseMembers stops. */
  lemma ParseMembersLast(s: string, m: Member, rest: string)
    requires ParseMember(s) == Some((m, "}" + rest))
    ensures ParseMembers(s) == Some(([m], rest))
  {
    assert ("}" + rest)[1..] == rest;
  }

  lemma OneMemberDecodes(m: Member, rest: string)
    ensures ParseMembers(EncodeMembers([m]) + ("}" + rest)) == Some(([m], rest))
  {
    assert EncodeMembers([m]) == EncodeMember(m);
    EncodeMemberDecodes(m, "}" + rest);
    ParseMembersLast(EncodeMember(m) + ("}" + rest), m, rest);
  }

  lemma NextMemberDecodes(ms: seq<Member>, rest: string)
    requires |ms| > 1
    requires ParseMembers(EncodeMembers(ms[1..]) + ("}" + rest)) == Some((ms[1..], rest))
    ensures ParseMembers(EncodeMembers(ms) + ("}" + rest)) == Some((ms, rest))
  {
    var later := EncodeMembers(ms[1..]) + ("}" + rest);
    var s := EncodeMembers(ms) + ("}" + rest);
    assert EncodeMembers(ms) == EncodeMember(ms[0]) + (", " + EncodeMembers(ms[1..]));
    Assoc(EncodeMember(ms[0]), ", " + EncodeMembers(ms[1..]), "}" + rest);
    Assoc(", ", EncodeMembers(ms[1..]), "}" + rest);
    assert s == EncodeMember(ms[0]) + (", " + later);
    EncodeMemberDecodes(ms[0], ", " + later);
    MembersStartWithQuote(ms[1..]);
    ParseMembersStep(s, ms[0], later);
    assert [ms[0]] + ms[1..] == ms;
  }

  lemma {:induction false} EncodeMembersDecodes(ms: seq<Member>, rest: string)
    requires ms != []
    ensures ParseMembers(EncodeMembers(ms) + ("}" + rest)) == Some((ms, rest))
  {
    if |ms| == 1 {
      assert ms == [ms[0]];
      OneMemberDecodes(ms[0], rest);
    } else {
      EncodeMembersDecodes(ms[1..], rest);
      NextMemberDecodes(ms, rest);
    }
  }

  /** What `json.dumps` writes reads back as the same members in the same order. */
  lemma DumpsRoundTrip(ms: seq<Member>)
    ensures ParseObject(Dumps(ms)) == Some(ms)
  {
    var text := Dumps(ms);
    SkipNothing(text);
    if ms == [] {
      assert text == "{}";
      assert text[1..] == "}";
    } else {
      MembersStartWithQuote(ms);
      EncodeMembersDecodes(ms, "");
      assert text[1..] == EncodeMembers(ms) + ("}" + "");
      SkipNothing(text[1..]);
    }
  }

  // ---------------------------------------------------------------------------
  // Properties of the encoding on its own
  // ---------------------------------------------------------------------------

  lemma AllPrintableConcat(a: string, b: string)
    requires AllPrintable(a) && AllPrintable(b)
    ensures AllPrintable(a + b)
  {
    forall i | 0 <= i < |a + b| ensures Printable((a + b)[i]) {
      if i >= |a| {
        assert (a + b)[i] == b[i - |a|];
      }
    }
  }

  lemma Hex4IsAscii(n: nat)
    requires n < 0x1_0000
    ensures AllPrintable(UnicodeEscape(n))
  {
  }

  /** Every escape is non-empty printable ASCII, and only the characters that need it change. */
  lemma EscapeCharIsAscii(c: char)
    ensures |EscapeChar(c)| > 0 && AllPrintable(EscapeChar(c))
    ensures EscapeChar(c) == [c] <==> Printable(c) && c != '"' && c != '\\'
  {
    if ShortEscape(c).None? && !Printable(c) && (c as int) >= 0x1_0000 {
      Hex4IsAscii(Surrogates(c).0);
      Hex4IsAscii(Surrogates(c).1);
      AllPrintableConcat(UnicodeEscape(Surrogates(c).0), UnicodeEscape(Surrogates(c).1));
    }
  }

  lemma {:induction false} EscapeStringIsAscii(s: string)
    ensures AllPrintable(EscapeString(s))
  {
    if s != [] {
      EscapeCharIsAscii(s[0]);
      EscapeStringIsAscii(s[1..]);
      AllPrintableConcat(EscapeChar(s[0]), EscapeString(s[1..]));
    }
  }

  lemma QuoteIsAscii(s: string)
    ensures AllPrintable(Quote(s))
  {
    EscapeStringIsAscii(s);
    AllPrintableConcat("\"", EscapeString(s));
    AllPrintableConcat("\"" + EscapeString(s), "\"");
  }

  lemma {:induction false} MembersAreAscii(ms: seq<Member>)
    ensures AllPrintable(EncodeMembers(ms))
  {
    if ms != [] {
      var m := ms[0];
      QuoteIsAscii(m.0);
      QuoteIsAscii(m.1);
      AllPrintableConcat(Quote(m.0), ": ");
      AllPrintableConcat(Quote(m.0) + ": ", Quote(m.1));
      if |ms| > 1 {
        MembersAreAscii(ms[1..]);
        AllPrintableConcat(EncodeMember(m), ", ");
        AllPrintableConcat(EncodeMember(m) + ", ", EncodeMembers(ms[1..]));
      }
    }
  }

  /** The output is pure printable ASCII: the effect of `ensure_ascii=True`. */
  lemma DumpsIsAscii(ms: seq<Member>)
    ensures AllPrintable(Dumps(ms))
  {
    MembersAreAscii(ms);
    AllPrintableConcat("{", EncodeMembers(ms));
    AllPrintableConcat("{" + EncodeMembers(ms), "}");
  }

  /** A string of printable ASCII without quote or backslash is written as itself. */
  lemma {:induction false} EscapePlainString(s: string)
    requires forall c :: c in s ==> Printable(c) && c != '"' && c != '\\'
    ensures EscapeString(s) == s
  {
    if s != [] {
      assert s[0] in s;
      assert forall c :: c in s[1..] ==> c in s;
      EscapeCharIsAscii(s[0]);
      EscapePlainString(s[1..]);
    }
  }
}
