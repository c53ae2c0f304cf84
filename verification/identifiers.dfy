/**
  SQL delimited identifiers as the `/2h` handler builds them: a name is
  wrapped in double quotes and every double quote inside it is doubled
  (the delimited-identifier form of ISO/IEC 9075-2 section 5.2, also used
  by PostgreSQL). An optional schema qualifies the table as
  `"schema"."table"`. The handler only escapes; it does not validate names
  against any allow-list.

  Besides the serialisers, the module defines a decoder (`ParseQuoted`,
  `ParseTableName`) that reads a delimited identifier by its quoting
  rules (`""` is one quote, a lone `"` closes it), and proves that the escaped text always reads back as
  exactly the name that was escaped, followed by the rest of the text,
  whenever that rest does not begin with a double quote.
*/
module Identifiers {
  import opened Wrappers

  const Quote: char := '"'
  const Dot: char := '.'

  /** Number of double quotes in `s`. */
  function CountQuotes(s: string): nat
  {
    if |s| == 0 then 0
    else (if s[0] == Quote then 1 else 0) + CountQuotes(s[1..])
  }

  /** `name` with every double quote replaced by two double quotes. */
  function DoubleQuotes(name: string): (r: string)
    ensures |r| == |name| + CountQuotes(name)
    ensures CountQuotes(name) == 0 ==> r == name
  {
    if |name| == 0 then []
    else (if name[0] == Quote then [Quote, Quote] else [name[0]]) + DoubleQuotes(name[1..])
  }

  /**
    The body of a delimited identifier: every double quote in it belongs
    to an adjacent pair `""`, pairs read left to right.
  */
  predicate PairedQuotes(s: string)
  {
    if |s| == 0 then true
    else if s[0] != Quote then PairedQuotes(s[1..])
    else |s| >= 2 && s[1] == Quote && PairedQuotes(s[2..])
  }

  /** Collapses each `""` pair of a well-formed body back to one `"`. */
  function Collapse(s: string): string
    requires PairedQuotes(s)
  {
    if |s| == 0 then []
    else if s[0] != Quote then [s[0]] + Collapse(s[1..])
    else [Quote] + Collapse(s[2..])
  }

  /** The quoted form of `name` (apis/src/index.ts line 35). */
  function EscapeIdentifier(name: string): (r: string)
    ensures |r| == |name| + 2 + CountQuotes(name)
    ensures r[0] == Quote && r[|r| - 1] == Quote
    ensures PairedQuotes(r[1..|r| - 1]) && Collapse(r[1..|r| - 1]) == name
    ensures CountQuotes(name) == 0 ==> r == [Quote] + name + [Quote]
  {
    var body := DoubleQuotes(name);
    var r := [Quote] + body + [Quote];
    assert r[1..|r| - 1] == body;
    DoubledIsPaired(name);
    r
  }

  /** JavaScript truthiness of the optional schema: absent and "" are false. */
  predicate SchemaGiven(schema: Option<string>)
  {
    schema.Some? && schema.value != ""
  }

  /** The table reference interpolated into the query (lines 33-40). */
  function TableName(schema: Option<string>, base: string): (r: string)
    ensures !SchemaGiven(schema) ==> ParseQuoted(r) == Some((base, []))
    ensures SchemaGiven(schema) ==>
              ParseQuoted(r) == Some((schema.value, [Dot] + EscapeIdentifier(base)))
  {
    if SchemaGiven(schema) then
      var r := EscapeIdentifier(schema.value) + [Dot] + EscapeIdentifier(base);
      assert r == EscapeIdentifier(schema.value) + ([Dot] + EscapeIdentifier(base));
      ParseEscaped(schema.value, [Dot] + EscapeIdentifier(base));
      r
    else
      var r := EscapeIdentifier(base);
      assert r == r + [];
      ParseEscaped(base, []);
      r
  }

  // ---------------------------------------------------------------------
  // Decoding

  /**
    Reads the rest of a delimited identifier after its opening quote:
    `""` stands for one quote, a lone `"` closes the identifier. Returns
    the name and the text after the closing quote, or None when the
    identifier is never closed.
  */
  function ScanBody(s: string): Option<(string, string)>
  {
    if |s| == 0 then None
    else if s[0] != Quote then
      match ScanBody(s[1..])
      case None => None
      case Some(p) => Some(([s[0]] + p.0, p.1))
    else if |s| >= 2 && s[1] == Quote then
      match ScanBody(s[2..])
      case None => None
      case Some(p) => Some(([Quote] + p.0, p.1))
    else Some(([], s[1..]))
  }

  /** Reads one delimited identifier at the front of `s`. */
  function ParseQuoted(s: string): Option<(string, string)>
  {
    if |s| == 0 || s[0] != Quote then None else ScanBody(s[1..])
  }

  /**
    Reads a whole table reference: one delimited identifier, or two
    joined by a single `.`, with nothing else around them. Returns the
    schema (None when unqualified) and the table name.
  */
  function ParseTableName(s: string): Option<(Option<string>, string)>
  {
    match ParseQuoted(s)
    case None => None
    case Some(first) =>
      if |first.1| == 0 then Some((None, first.0))
      else if first.1[0] != Dot then None
      else
        match ParseQuoted(first.1[1..])
        case None => None
        case Some(second) =>
          if |second.1| == 0 then Some((Some(first.0), second.0)) else None
  }

  // ---------------------------------------------------------------------
  // Properties

  /** Doubling quotes always yields a well-formed body that collapses back. */
  lemma {:induction false} DoubledIsPaired(name: string)
    ensures PairedQuotes(DoubleQuotes(name))
    ensures Collapse(DoubleQuotes(name)) == name
  {
    if |name| > 0 {
      DoubledIsPaired(name[1..]);
      var tail := DoubleQuotes(name[1..]);
      if name[0] == Quote {
        var d := [Quote, Quote] + tail;
        assert d[2..] == tail;
      } else {
        var d := [name[0]] + tail;
        assert d[1..] == tail;
      }
      assert name == [name[0]] + name[1..];
    }
  }

  /** Every well-formed body is the doubling of exactly one name. */
  lemma {:induction false} PairedIsDoubled(s: string)
    requires PairedQuotes(s)
    ensures DoubleQuotes(Collapse(s)) == s
  {
    if |s| > 0 {
      if s[0] != Quote {
        PairedIsDoubled(s[1..]);
        var c := [s[0]] + Collapse(s[1..]);
        assert Collapse(s) == c;
        assert c[0] == s[0] && c[1..] == Collapse(s[1..]);
        assert DoubleQuotes(c) == [s[0]] + DoubleQuotes(c[1..]);
        assert s == [s[0]] + s[1..];
      } else {
        PairedIsDoubled(s[2..]);
        var c := [Quote] + Collapse(s[2..]);
        assert Collapse(s) == c;
        assert c[0] == Quote && c[1..] == Collapse(s[2..]);
        assert DoubleQuotes(c) == [Quote, Quote] + DoubleQuotes(c[1..]);
        assert s == [Quote, Quote] + s[2..];
      }
    }
  }

  /** A name without double quotes is simply wrapped in them. */
  lemma {:induction false} QuoteFreeIsWrapped(name: string)
    requires Quote !in name
    ensures CountQuotes(name) == 0
    ensures EscapeIdentifier(name) == [Quote] + name + [Quote]
  {
    if |name| > 0 {
      assert name[1..] <= name[1..];
      assert forall c :: c in name[1..] ==> c in name;
      QuoteFreeIsWrapped(name[1..]);
    }
  }

  /** Distinct names never escape to the same text. */
  lemma EscapeInjective(a: string, b: string)
    requires EscapeIdentifier(a) == EscapeIdentifier(b)
    ensures a == b
  {
    var ea := EscapeIdentifier(a);
    assert Collapse(ea[1..|ea| - 1]) == a;
  }

  /**
    The quoted text of `name` can neither end early nor swallow what
    follows it: read from the front of `EscapeIdentifier(name) + rest`,
    the identifier is exactly `name` and the reader stops exactly before
    `rest`, provided `rest` does not itself begin with a quote.
  */
  lemma ParseEscaped(name: string, rest: string)
    requires |rest| == 0 || rest[0] != Quote
    ensures ParseQuoted(EscapeIdentifier(name) + rest) == Some((name, rest))
  {
    var s := EscapeIdentifier(name) + rest;
    assert s[1..] == DoubleQuotes(name) + [Quote] + rest;
    ScanDoubled(name, rest);
  }

  lemma {:induction false} ScanDoubled(name: string, rest: string)
    requires |rest| == 0 || rest[0] != Quote
    ensures ScanBody(DoubleQuotes(name) + [Quote] + rest) == Some((name, rest))
  {
    var s := DoubleQuotes(name) + [Quote] + rest;
    if |name| == 0 {
      assert s == [Quote] + rest;
      assert s[1..] == rest;
    } else {
      ScanDoubled(name[1..], rest);
      var tail := DoubleQuotes(name[1..]) + [Quote] + rest;
      if name[0] == Quote {
        assert s == [Quote, Quote] + tail;
        assert s[2..] == tail;
      } else {
        assert s == [name[0]] + tail;
        assert s[1..] == tail;
      }
      assert name == [name[0]] + name[1..];
    }
  }

  /** The reader only stops where an escaped body and its closing quote end. */
  lemma {:induction false} ScanBodyInverse(s: string)
    requires ScanBody(s).Some?
    ensures s == DoubleQuotes(ScanBody(s).value.0) + [Quote] + ScanBody(s).value.1
  {
    var p := ScanBody(s).value;
    if s[0] != Quote {
      ScanBodyInverse(s[1..]);
      var q := ScanBody(s[1..]).value;
      assert p.0 == [s[0]] + q.0 && p.1 == q.1;
      assert p.0[1..] == q.0;
      assert s == [s[0]] + s[1..];
    } else if |s| >= 2 && s[1] == Quote {
      ScanBodyInverse(s[2..]);
      var q := ScanBody(s[2..]).value;
      assert p.0 == [Quote] + q.0 && p.1 == q.1;
      assert p.0[1..] == q.0;
      assert s == [Quote, Quote] + s[2..];
    } else {
      assert p.0 == [] && s == [Quote] + s[1..];
    }
  }

  /** A single delimited identifier the reader accepts is the escaping of what it reads. */
  lemma ParseQuotedInverse(s: string)
    requires ParseQuoted(s).Some?
    ensures s == EscapeIdentifier(ParseQuoted(s).value.0) + ParseQuoted(s).value.1
  {
    ScanBodyInverse(s[1..]);
    assert s == [Quote] + s[1..];
  }

  /**
    Every text the table-reference reader accepts is made of escaped
    tokens only: one escaped table name, or an escaped schema, a `.` and
    an escaped table name.
  */
  lemma ParseTableNameInverse(s: string)
    requires ParseTableName(s).Some?
    ensures var p := ParseTableName(s).value;
      s == if p.0.Some? then EscapeIdentifier(p.0.value) + [Dot] + EscapeIdentifier(p.1)
           else EscapeIdentifier(p.1)
  {
    ParseQuotedInverse(s);
    var first := ParseQuoted(s).value;
    if |first.1| > 0 {
      var rest := first.1[1..];
      ParseQuotedInverse(rest);
      assert first.1 == [Dot] + rest;
      assert rest == EscapeIdentifier(ParseQuoted(rest).value.0) + [];
    } else {
      assert s == EscapeIdentifier(first.0) + [];
    }
  }

  /**
    Reading back the table reference recovers the schema and the table
    name; an empty schema reads back as no schema, as the handler treats
    it.
  */
  lemma TableNameRoundTrip(schema: Option<string>, base: string)
    ensures ParseTableName(TableName(schema, base))
            == Some((if SchemaGiven(schema) then schema else None, base))
  {
    if SchemaGiven(schema) {
      var rest := [Dot] + EscapeIdentifier(base);
      assert rest[1..] == EscapeIdentifier(base);
      ParseEscaped(base, []);
      assert EscapeIdentifier(base) + [] == EscapeIdentifier(base);
    }
  }

  /** Two table references are the same text only for the same target. */
  lemma TableNameInjective(s1: Option<string>, b1: string, s2: Option<string>, b2: string)
    requires TableName(s1, b1) == TableName(s2, b2)
    ensures b1 == b2
    ensures SchemaGiven(s1) <==> SchemaGiven(s2)
    ensures SchemaGiven(s1) ==> s1 == s2
  {
    TableNameRoundTrip(s1, b1);
    TableNameRoundTrip(s2, b2);
  }

  /** A schema containing a quote stays inside its own delimited identifier. */
  lemma QuotedSchemaExample()
    ensures TableName(Some("a\"b"), "t") == "\"a\"\"b\".\"t\""
  {
  }
}
