/** The multi-row `INSERT` statement that seeds the types and owner tables with the names from
    the configuration, and what that statement inserts when the store reads it. */
module Seed {
  import opened Wrappers

  const Quote: char := '\''

  /** `name` contains no single quote. */
  predicate Plain(name: string) {
    forall k :: 0 <= k < |name| ==> name[k] != Quote
  }

  /** One parenthesised row of the VALUES list; the name is spliced in between quotes as is. */
  function Item(name: string): string {
    "('" + name + "')"
  }

  /** The VALUES list: one item per name, in order, separated by ", ". */
  function ValuesList(names: seq<string>): string
    decreases |names|
  {
    if |names| == 0 then ""
    else if |names| == 1 then Item(names[0])
    else ValuesList(names[..|names| - 1]) + ", " + Item(names[|names| - 1])
  }

  function InsertHead(table: string): string {
    "INSERT INTO " + table + " (name) VALUES "
  }

  /** The seed statement for `table` as the code writes it. */
  function SeedInsert(table: string, names: seq<string>): string {
    InsertHead(table) + ValuesList(names) + ";"
  }

  /** The string-builder loop that writes the seed statement. */
  method BuildSeedInsert(table: string, names: seq<string>) returns (stmt: string)
    ensures stmt == SeedInsert(table, names)
  {
    var sb := InsertHead(table);
    var i := 0;
    while i < |names|
      invariant 0 <= i <= |names|
      invariant sb == InsertHead(table) + ValuesList(names[..i])
    {
      if i != 0 {
        sb := sb + ", ";
      }
      sb := sb + Item(names[i]);
      assert names[..i + 1][..i] == names[..i];
      i := i + 1;
    }
    assert names[..|names|] == names;
    stmt := sb + ";";
  }

  // ---------------------------------------------------------------------------
  // Reading the statement back

  /** Reads the body of an SQL string literal up to its closing quote, where two quotes in a
      row stand for one quote; returns the text and what follows the closing quote. */
  function ReadLiteral(t: string): (r: Option<(string, string)>)
    ensures r.Some? ==> |r.value.1| < |t|
    decreases |t|
  {
    if |t| == 0 then None
    else if t[0] == Quote then
      if |t| >= 2 && t[1] == Quote then
        match ReadLiteral(t[2..])
        case None => None
        case Some((v, rest)) => Some(([Quote] + v, rest))
      else Some(("", t[1..]))
    else
      match ReadLiteral(t[1..])
      case None => None
      case Some((v, rest)) => Some(([t[0]] + v, rest))
  }

  /** Reads a VALUES list `('a'), ('b'), ...;` up to the end of the text. */
  function ReadItems(t: string): Option<seq<string>>
    decreases |t|, 1
  {
    if |t| < 2 || t[..2] != "('" then None
    else match ReadLiteral(t[2..])
      case None => None
      case Some((v, rest)) => AfterItem(v, rest)
  }

  /** Continues a VALUES list after the literal `v`: `)` and then either the final `;` or
      `, ` and further items. */
  function AfterItem(v: string, rest: string): Option<seq<string>>
    decreases |rest|, 0
  {
    if |rest| == 0 || rest[0] != ')' then None
    else if rest[1..] == ";" then Some([v])
    else if |rest| >= 3 && rest[1..3] == ", " then
      match ReadItems(rest[3..])
      case None => None
      case Some(vs) => Some([v] + vs)
    else None
  }

  /** The names a seed statement for `table` inserts, or None when it is not a well-formed
      statement of that shape (the store rejects it with a syntax error). */
  function SeedValues(table: string, stmt: string): Option<seq<string>> {
    var head := InsertHead(table);
    if |stmt| >= |head| && stmt[..|head|] == head then ReadItems(stmt[|head|..]) else None
  }

  // ---------------------------------------------------------------------------
  // Quoting names as SQL literals

  /** A name written as the body of an SQL string literal: every quote doubled. */
  function Escape(name: string): (r: string)
    ensures Plain(name) ==> r == name
    decreases |name|
  {
    if |name| == 0 then ""
    else (if name[0] == Quote then [Quote, Quote] else [name[0]]) + Escape(name[1..])
  }

  function EscapeAll(names: seq<string>): (r: seq<string>)
    ensures |r| == |names|
    ensures forall i :: 0 <= i < |names| ==> r[i] == Escape(names[i])
  {
    seq(|names|, i requires 0 <= i < |names| => Escape(names[i]))
  }

  /** The seed statement with every name quoted as an SQL literal. */
  function SeedInsertEscaped(table: string, names: seq<string>): string {
    SeedInsert(table, EscapeAll(names))
  }

  /** How the seed statement writes a name into its literal: spliced in as it is, as the code
      does, or with every quote doubled. */
  datatype Quoting = Spliced | Escaped

  /** The seed statement for `table`, with names written as `q` says. */
  function SeedStatement(q: Quoting, table: string, names: seq<string>): string {
    match q
    case Spliced => SeedInsert(table, names)
    case Escaped => SeedInsertEscaped(table, names)
  }

  /** The seed statement inserts exactly the names: always when they are escaped, and for
      spliced names when none holds a quote. */
  predicate ReadsBack(q: Quoting, names: seq<string>) {
    q == Escaped || forall i :: 0 <= i < |names| ==> Plain(names[i])
  }

  /** An escaped name reads back as itself, up to the quote that closes it. */
  lemma {:induction false} ReadEscaped(v: string, rest: string)
    requires |rest| == 0 || rest[0] != Quote
    ensures ReadLiteral(Escape(v) + [Quote] + rest) == Some((v, rest))
    decreases |v|
  {
    if |v| == 0 {
      var t := [Quote] + rest;
      assert Escape(v) + [Quote] + rest == t;
      assert t[1..] == rest;
    } else {
      ReadEscaped(v[1..], rest);
      if v[0] == Quote {
        EscapedQuoteStep(v, rest);
      } else {
        EscapedPlainStep(v, rest);
      }
    }
  }

  /** A leading quote, escaped as two, reads back as one in front of the rest of the name. */
  lemma EscapedQuoteStep(v: string, rest: string)
    requires |v| > 0 && v[0] == Quote
    requires ReadLiteral(Escape(v[1..]) + [Quote] + rest) == Some((v[1..], rest))
    ensures ReadLiteral(Escape(v) + [Quote] + rest) == Some((v, rest))
  {
    var tail := Escape(v[1..]) + [Quote] + rest;
    var t := Escape(v) + [Quote] + rest;
    assert t[0] == Quote && t[1] == Quote && t[2..] == tail by {
      assert Escape(v) == [Quote, Quote] + Escape(v[1..]);
      assert t == [Quote, Quote] + tail;
    }
    ReadDoubledQuote(t, v[1..], rest);
    assert [Quote] + v[1..] == v;
  }

  /** A leading character other than a quote reads back as itself. */
  lemma EscapedPlainStep(v: string, rest: string)
    requires |v| > 0 && v[0] != Quote
    requires ReadLiteral(Escape(v[1..]) + [Quote] + rest) == Some((v[1..], rest))
    ensures ReadLiteral(Escape(v) + [Quote] + rest) == Some((v, rest))
  {
    var tail := Escape(v[1..]) + [Quote] + rest;
    var t := Escape(v) + [Quote] + rest;
    assert t[0] == v[0] && t[1..] == tail by {
      assert Escape(v) == [v[0]] + Escape(v[1..]);
      assert t == [v[0]] + tail;
    }
    ReadPlainChar(t, v[1..], rest);
    assert [v[0]] + v[1..] == v;
  }

  /** Two quotes in a row inside a literal read as one quote. */
  lemma ReadDoubledQuote(t: string, v: string, rest: string)
    requires |t| >= 2 && t[0] == Quote && t[1] == Quote && ReadLiteral(t[2..]) == Some((v, rest))
    ensures ReadLiteral(t) == Some(([Quote] + v, rest))
  {
  }

  /** Any other character inside a literal reads as itself. */
  lemma ReadPlainChar(t: string, v: string, rest: string)
    requires |t| >= 1 && t[0] != Quote && ReadLiteral(t[1..]) == Some((v, rest))
    ensures ReadLiteral(t) == Some(([t[0]] + v, rest))
  {
  }

  /** The VALUES list seen from its front: the first item, then the rest. */
  lemma {:induction false} ValuesListFront(names: seq<string>)
    requires |names| >= 2
    ensures ValuesList(names) == Item(names[0]) + ", " + ValuesList(names[1..])
    decreases |names|
  {
    var n := |names|;
    if n > 2 {
      ValuesListFront(names[..n - 1]);
      assert names[..n - 1][1..] == names[1..][..n - 2];
      assert names[..n - 1][0] == names[0];
    } else {
      assert names[..1] == [names[0]];
      assert names[1..] == [names[1]];
    }
  }

  /** An item whose name is escaped is read as that name, and reading goes on after it. */
  lemma ReadItemsHead(v: string, rest: string)
    requires |rest| == 0 || rest[0] != Quote
    ensures ReadItems("('" + Escape(v) + [Quote] + rest) == AfterItem(v, rest)
  {
    var t := "('" + Escape(v) + [Quote] + rest;
    assert t[..2] == "('";
    assert t[2..] == Escape(v) + [Quote] + rest;
    ReadEscaped(v, rest);
  }

  lemma Assoc(a: string, b: string, c: string)
    ensures (a + b) + c == a + (b + c)
  {
  }

  /** A list of two or more items with its closing `;`, split at the quote that closes the
      first literal. */
  lemma ListShape(x: string, others: string)
    ensures Item(x) + ", " + others + ";" == "('" + x + [Quote] + ("), " + (others + ";"))
  {
    var more := others + ";";
    Assoc(Item(x) + ", ", others, ";");
    Assoc(Item(x), ", ", more);
    ItemThen(x, ", " + more);
    assert ")" + ", " == "), ";
    Assoc(")", ", ", more);
  }

  /** An item followed by more text, split at the quote that closes its literal. */
  lemma ItemThen(x: string, tail: string)
    ensures Item(x) + tail == "('" + x + [Quote] + (")" + tail)
  {
    assert "')" == [Quote] + ")";
    Assoc("('" + x, "')", tail);
    Assoc([Quote], ")", tail);
    Assoc("('" + x, [Quote], ")" + tail);
  }

  /** The last item closes with `);`. */
  lemma AfterLastItem(v: string)
    ensures AfterItem(v, ");") == Some([v])
  {
    assert ");"[1..] == ";";
  }

  /** An item followed by `), ` goes on with the next one. */
  lemma AfterInnerItem(v: string, more: string)
    requires |more| > 0 && more[0] == '('
    ensures AfterItem(v, "), " + more) ==
              match ReadItems(more) case None => None case Some(vs) => Some([v] + vs)
  {
    var rest := "), " + more;
    assert rest[1..3] == ", ";
    assert rest[3..] == more;
    assert rest[1..] != ";" by { assert |rest[1..]| >= 2; }
  }

  /** A VALUES list of escaped names reads back as the names. */
  lemma {:induction false} ReadItemsEscaped(names: seq<string>)
    requires |names| >= 1
    ensures ReadItems(ValuesList(EscapeAll(names)) + ";") == Some(names)
    decreases |names|
  {
    var e := EscapeAll(names);
    if |names| == 1 {
      assert ValuesList(e) + ";" == "('" + Escape(names[0]) + [Quote] + ");";
      ReadItemsHead(names[0], ");");
      AfterLastItem(names[0]);
      assert [names[0]] == names;
    } else {
      assert EscapeAll(names[1..]) == e[1..];
      ReadItemsEscaped(names[1..]);
      ValuesListStartsItem(e[1..]);
      ValuesListFront(e);
      ReadCons(names[0], ValuesList(e[1..]), names[1..]);
      assert [names[0]] + names[1..] == names;
    }
  }

  /** An escaped item in front of a list that reads as `vs` makes a list that reads as the
      item's name followed by `vs`. */
  lemma ReadCons(v: string, others: string, vs: seq<string>)
    requires |others| > 0 && others[0] == '('
    requires ReadItems(others + ";") == Some(vs)
    ensures ReadItems(Item(Escape(v)) + ", " + others + ";") == Some([v] + vs)
  {
    ListShape(Escape(v), others);
    ReadItemsHead(v, "), " + (others + ";"));
    AfterInnerItem(v, others + ";");
  }

  /** A non-empty VALUES list starts with an opening parenthesis. */
  lemma {:induction false} ValuesListStartsItem(names: seq<string>)
    requires |names| >= 1
    ensures |ValuesList(names)| > 0 && ValuesList(names)[0] == '('
  {
    if |names| >= 2 {
      ValuesListFront(names);
    }
  }

  /** The escaped seed statement inserts exactly the configured names, whatever they contain. */
  lemma SeedEscapedRoundTrip(table: string, names: seq<string>)
    requires |names| >= 1
    ensures SeedValues(table, SeedInsertEscaped(table, names)) == Some(names)
  {
    var head := InsertHead(table);
    var stmt := SeedInsertEscaped(table, names);
    assert stmt == head + (ValuesList(EscapeAll(names)) + ";");
    assert stmt[..|head|] == head;
    assert stmt[|head|..] == ValuesList(EscapeAll(names)) + ";";
    ReadItemsEscaped(names);
  }

  /** On names without quotes the statement as written is the escaped one, so it inserts
      exactly the configured names. */
  lemma SeedRoundTrip(table: string, names: seq<string>)
    requires |names| >= 1
    requires forall i :: 0 <= i < |names| ==> Plain(names[i])
    ensures SeedInsert(table, names) == SeedInsertEscaped(table, names)
    ensures SeedValues(table, SeedInsert(table, names)) == Some(names)
  {
    assert EscapeAll(names) == names;
    SeedEscapedRoundTrip(table, names);
  }

  /** With no names the statement would be `... VALUES ;`, which the store rejects; this is
      why the code only issues it for a non-empty list. */
  lemma EmptySeedRejected(table: string)
    ensures SeedValues(table, SeedInsert(table, [])) == None
  {
    var head := InsertHead(table);
    assert SeedInsert(table, []) == head + ";";
    assert (head + ";")[..|head|] == head;
    assert (head + ";")[|head|..] == ";";
  }

  /** A name with a quote in it ends its literal early: "Earl's" makes the statement
      malformed, so the store rejects the seed insert. */
  lemma QuotedSeedRejected()
    ensures SeedValues("types", SeedInsert("types", ["Earl's"])) == None
  {
    var head := InsertHead("types");
    assert Plain("Earl") && Escape("Earl") == "Earl";
    var body := "('" + Escape("Earl") + [Quote] + "s');";
    var stmt := SeedInsert("types", ["Earl's"]);
    assert stmt == head + body;
    assert stmt[..|head|] == head;
    assert stmt[|head|..] == body;
    ReadItemsHead("Earl", "s');");
  }

  /** A name that closes its own literal adds rows: one configured owner "a'), ('b"
      seeds two owners, "a" and "b". */
  lemma QuotedSeedSplits()
    ensures SeedValues("owner", SeedInsert("owner", ["a'), ('b"])) == Some(["a", "b"])
  {
    var head := InsertHead("owner");
    assert Plain("a") && Escape("a") == "a";
    assert ReadItems(Item("b") + ";") == Some(["b"]) by {
      assert Plain("b") && EscapeAll(["b"]) == ["b"];
      ReadItemsEscaped(["b"]);
    }
    ReadCons("a", Item("b"), ["b"]);
    var body := Item("a") + ", " + Item("b") + ";";
    var stmt := SeedInsert("owner", ["a'), ('b"]);
    assert stmt == head + body;
    assert stmt[..|head|] == head;
    assert stmt[|head|..] == body;
    assert ["a"] + ["b"] == ["a", "b"];
  }

  /** Whenever the names read back, the statement inserts exactly them, in order. */
  lemma SeedStatementRoundTrip(q: Quoting, table: string, names: seq<string>)
    requires |names| >= 1 && ReadsBack(q, names)
    ensures SeedValues(table, SeedStatement(q, table, names)) == Some(names)
  {
    if q == Escaped {
      SeedEscapedRoundTrip(table, names);
    } else {
      SeedRoundTrip(table, names);
    }
  }
}
