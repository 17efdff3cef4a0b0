/** The `Content-Disposition` value the download sets, and what a reader of the
    header (the quoted-string `filename` parameter of section 4.1 of RFC 6266,
    with the quoted-string syntax of section 3.2.6 of RFC 7230) gets back from it. */
module Disposition {
  import opened Options

  const Prefix: string := "attachment; filename=\""
  const Quote: char := '"'
  const Backslash: char := '\\'

  /** A character Node.js accepts in a header value: tab, U+0020 to U+007E and
      U+0080 to U+00FF. Setting a header whose value holds any other character
      throws. */
  predicate HeaderChar(c: char)
  {
    c == '\t' || (' ' <= c <= '~') || ('\U{80}' <= c <= '\U{FF}')
  }

  predicate HeaderSafe(value: string)
  {
    forall i :: 0 <= i < |value| ==> HeaderChar(value[i])
  }

  /** `attachment; filename="${file.fileName}"`: the name is inserted as it is,
      with no escaping. */
  function ContentDisposition(fileName: string): (header: string)
    ensures |header| == |Prefix| + |fileName| + 1
    ensures header[..|Prefix|] == Prefix
    ensures header[|Prefix|..|header| - 1] == fileName
    ensures header[|header| - 1] == Quote
    ensures HeaderSafe(header) <==> HeaderSafe(fileName)
  {
    assert forall i :: 0 <= i < |fileName| ==> fileName[i] == (Prefix + fileName + [Quote])[|Prefix| + i];
    Prefix + fileName + [Quote]
  }

  /** Reads the rest of a quoted-string whose opening quote has been consumed:
      the unescaped value and the text after the closing quote, or None when the
      closing quote is missing. `\x` stands for `x`. */
  function ReadQuoted(s: string): (r: Option<(string, string)>)
    ensures r.Some? ==> |r.value.1| < |s|
  {
    if s == [] then None
    else if s[0] == Quote then Some(([], s[1..]))
    else if s[0] == Backslash then
      if |s| < 2 then None
      else match ReadQuoted(s[2..])
        case None => None
        case Some((v, rest)) => Some(([s[1]] + v, rest))
    else
      match ReadQuoted(s[1..])
      case None => None
      case Some((v, rest)) => Some(([s[0]] + v, rest))
  }

  /** The file name a reader takes from a header of the form the download writes:
      the prefix, one quoted-string, and nothing after it. */
  function FileNameOf(header: string): Option<string>
  {
    if |header| < |Prefix| || header[..|Prefix|] != Prefix then None
    else match ReadQuoted(header[|Prefix|..])
      case Some((v, rest)) => if rest == [] then Some(v) else None
      case None => None
  }

  /** A name without '"' or '\' reads back as the value of its quoted-string. */
  lemma {:induction false} ReadQuotedPlain(name: string, tail: string)
    requires Quote !in name && Backslash !in name
    ensures ReadQuoted(name + [Quote] + tail) == Some((name, tail))
  {
    var s := name + [Quote] + tail;
    if name == [] {
      assert s[0] == Quote && s[1..] == tail;
    } else {
      assert s[0] == name[0] && name[0] in name;
      assert s[1..] == name[1..] + [Quote] + tail;
      ReadQuotedPlain(name[1..], tail);
      assert [name[0]] + name[1..] == name;
    }
  }

  /** A quoted-string read uses up its value, the closing quote and what follows,
      and no more than the input. It uses exactly that much only when no escape
      was read, so the input is the value, the quote and the rest, verbatim. */
  lemma {:induction false} ReadQuotedConsumes(s: string)
    requires ReadQuoted(s).Some?
    ensures var (v, rest) := ReadQuoted(s).value; |v| + 1 + |rest| <= |s|
    ensures var (v, rest) := ReadQuoted(s).value;
      |v| + 1 + |rest| == |s| ==> s == v + [Quote] + rest && Quote !in v && Backslash !in v
  {
    var (v, rest) := ReadQuoted(s).value;
    if s[0] == Quote {
      assert s == [] + [Quote] + s[1..];
    } else if s[0] == Backslash {
      ReadQuotedConsumes(s[2..]);
    } else {
      ReadQuotedConsumes(s[1..]);
      var (v', rest') := ReadQuoted(s[1..]).value;
      assert v == [s[0]] + v' && rest == rest';
      if |v| + 1 + |rest| == |s| {
        assert s == [s[0]] + s[1..];
        assert s == v + [Quote] + rest;
      }
    }
  }

  /** The header names the downloaded file exactly when the name needs no
      escaping: with a '"' or a '\' in the name, a reader of the header never
      gets the name back. */
  lemma DispositionRoundTrip(fileName: string)
    ensures FileNameOf(ContentDisposition(fileName)) == Some(fileName)
      <==> Quote !in fileName && Backslash !in fileName
  {
    var header := ContentDisposition(fileName);
    assert header[|Prefix|..] == fileName + [Quote] + [];
    if Quote !in fileName && Backslash !in fileName {
      ReadQuotedPlain(fileName, []);
    } else if FileNameOf(header) == Some(fileName) {
      ReadQuotedConsumes(header[|Prefix|..]);
    }
  }

  /** Because the name is not escaped, a name holding '"' ends the quoted-string
      early and the header no longer parses as a single file name. */
  lemma UnescapedQuoteBreaksHeader()
    ensures FileNameOf(ContentDisposition("a\"b.txt")) == None
  {
    var header := ContentDisposition("a\"b.txt");
    assert header[|Prefix|..] == "a\"b.txt\"";
    var value := "a\"b.txt\"";
    assert value[0] == 'a' && value[1..] == "\"b.txt\"";
    assert ReadQuoted(value[1..]) == Some(([], "b.txt\""));
    assert value[0] != Quote && value[0] != Backslash;
    assert [value[0]] + [] == ['a'];
    assert ReadQuoted(value) == Some((['a'], "b.txt\""));
  }
}
