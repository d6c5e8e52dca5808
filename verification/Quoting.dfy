/** Backtick quoting of the table name in DESCRIBE, against the reader of quoted
    identifiers (MySQL Reference Manual, "Schema Object Names"). */
module Quoting {
  import opened Wrappers

  /** A backtick inside a quoted identifier is written twice. */
  function One(c: char): string {
    if c == '`' then "``" else [c]
  }

  /** strings.ReplaceAll(table, "`", "``"). */
  function Doubled(table: string): string {
    if table == "" then ""
    else One(table[0]) + Doubled(table[1..])
  }

  function Quote(table: string): string {
    "`" + Doubled(table) + "`"
  }

  /** The quoting, piece by piece: a backtick at each end, each backtick of the name twice,
      and every other character once, in order. */
  lemma QuoteExactly(a: string, c: char, b: string)
    ensures Quote("") == "``"
    ensures Quote(a + [c] + b) == Quote(a)[..|Quote(a)| - 1] + (if c as int == 96 then "``" else [c]) + Quote(b)[1..]
    ensures |Quote(a)| >= 2 && Quote(a)[0] as int == 96 && Quote(a)[|Quote(a)| - 1] as int == 96
  {
    DoubledOne(c);
    hide Doubled;
    DoubledJoins(a + [c], b);
    DoubledJoins(a, [c]);
    assert Quote(a)[..|Quote(a)| - 1] == "`" + Doubled(a) && Quote(b)[1..] == Doubled(b) + "`";
  }

  lemma DoubledOne(c: char)
    ensures Doubled("") == "" && Doubled([c]) == if c as int == 96 then "``" else [c]
  {
    assert [c][1..] == "";
  }

  lemma {:induction false} DoubledJoins(a: string, b: string)
    ensures Doubled(a + b) == Doubled(a) + Doubled(b)
  {
    if a == "" {
      assert a + b == b;
    } else {
      assert (a + b)[1..] == a[1..] + b;
      DoubledJoins(a[1..], b);
    }
  }

  /** Reads up to the closing backtick, a doubled one standing for itself. */
  function ReadBody(s: string): Option<(string, string)> {
    if s == "" then None
    else if s[0] != '`' then Prefixed(s[0], ReadBody(s[1..]))
    else if |s| >= 2 && s[1] == '`' then Prefixed('`', ReadBody(s[2..]))
    else Some(("", s[1..]))
  }

  function Prefixed(c: char, r: Option<(string, string)>): Option<(string, string)> {
    match r
    case None => None
    case Some((name, rest)) => Some(([c] + name, rest))
  }

  /** An identifier in backticks, and the text after it. */
  function ReadQuoted(s: string): Option<(string, string)> {
    if s == "" || s[0] != '`' then None else ReadBody(s[1..])
  }

  lemma ReadOne(c: char, t: string)
    ensures ReadBody(One(c) + t) == Prefixed(c, ReadBody(t))
  {
    var s := One(c) + t;
    assert s[|One(c)|..] == t;
    if c == '`' { assert s[1] == '`'; }
  }

  lemma DoubledStep(table: string, t: string)
    requires table != ""
    ensures Doubled(table) + t == One(table[0]) + (Doubled(table[1..]) + t)
  {
  }

  lemma {:induction false} ReadDoubled(table: string, rest: string)
    requires rest == "" || rest[0] != '`'
    ensures ReadBody(Doubled(table) + ("`" + rest)) == Some((table, rest))
  {
    if table == "" {
      assert Doubled(table) + ("`" + rest) == "`" + rest;
    } else {
      hide ReadBody, Doubled, One;
      ReadDoubled(table[1..], rest);
      DoubledStep(table, "`" + rest);
      ReadOne(table[0], Doubled(table[1..]) + ("`" + rest));
      assert [table[0]] + table[1..] == table;
    }
  }

  /** Whatever the table is called, the quoted name is read back whole, and reading stops
      at the backtick the quoting put last. */
  lemma ReadUndoesQuote(table: string, rest: string)
    requires rest == "" || rest[0] != '`'
    ensures ReadQuoted(Quote(table) + rest) == Some((table, rest))
  {
    ReadDoubled(table, rest);
    assert (Quote(table) + rest)[1..] == Doubled(table) + ("`" + rest);
  }

  /** The statement execDescribe sends, for the table argument it is given. */
  function DescribeQuery(table: Option<string>): Option<string> {
    if table == None || table.value == "" then None else Some("DESCRIBE " + Quote(table.value))
  }

  /** A statement is sent exactly for a non-empty table name, and what follows DESCRIBE in
      it is that one identifier and nothing else. */
  lemma DescribeNamesTheTable(table: Option<string>)
    ensures DescribeQuery(table).Some? <==> table.Some? && table.value != ""
    ensures DescribeQuery(table).Some? ==>
              var statement := DescribeQuery(table).value;
              |statement| > 9 && statement[..9] == "DESCRIBE " && ReadQuoted(statement[9..]) == Some((table.value, ""))
  {
    if DescribeQuery(table).Some? {
      ReadUndoesQuote(table.value, "");
      assert Quote(table.value) + "" == Quote(table.value);
      assert ("DESCRIBE " + Quote(table.value))[9..] == Quote(table.value);
    }
  }

  lemma QuoteIsInjective(table: string, table': string)
    requires Quote(table) == Quote(table')
    ensures table == table'
  {
    ReadUndoesQuote(table, "");
    ReadUndoesQuote(table', "");
    assert Quote(table) + "" == Quote(table);
  }
}
