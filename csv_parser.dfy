/**
 * The catalog's CSV tokenizer (`CSVParser`): the text is cut into lines, the header line and
 * empty lines are dropped, and each remaining line is cut into fields at the commas that are
 * not inside double quotes. A double quote never reaches a field; it only flips the
 * "inside quotes" flag, and an unmatched quote keeps that flag set to the end of the line.
 */
module CsvParser {
  import opened Strings

  // ---------------------------------------------------------------------------
  // Reference definitions
  // ---------------------------------------------------------------------------

  /** The fields of `row` when scanning starts with the inside-quotes flag set to `inside`. */
  function Scan(row: string, inside: bool): (fields: seq<string>)
    ensures |fields| >= 1
    decreases |row|
  {
    if row == [] then [[]]
    else if row[0] == '"' then Scan(row[1..], !inside)
    else if row[0] == ',' && !inside then [[]] + Scan(row[1..], inside)
    else
      var rest := Scan(row[1..], inside);
      [[row[0]] + rest[0]] + rest[1..]
  }

  /** The fields `parseRow` produces for a line. */
  function SplitRow(row: string): seq<string> {
    Scan(row, false)
  }

  /** The inside-quotes flag after scanning `s` from the flag `inside`. */
  function InsideAfter(s: string, inside: bool): bool
    decreases |s|
  {
    if s == [] then inside else InsideAfter(s[1..], if s[0] == '"' then !inside else inside)
  }

  function CountQuotes(s: string): nat
    decreases |s|
  {
    if s == [] then 0 else (if s[0] == '"' then 1 else 0) + CountQuotes(s[1..])
  }

  /** Position `i` of `row` splits fields: a comma preceded by an even number of quotes. */
  predicate IsSeparatorAt(row: string, i: nat)
    requires i < |row|
  {
    row[i] == ',' && CountQuotes(row[..i]) % 2 == 0
  }

  /** How many positions of `row` split fields. */
  function SeparatorCount(row: string): nat
    decreases |row|
  {
    if row == [] then 0
    else SeparatorCount(row[..|row| - 1]) + (if IsSeparatorAt(row, |row| - 1) then 1 else 0)
  }

  /** `row` without its quotes and without the commas that split fields. */
  function Kept(row: string): string
    decreases |row|
  {
    if row == [] then []
    else
      var n := |row| - 1;
      Kept(row[..n]) + (if row[n] == '"' || IsSeparatorAt(row, n) then [] else [row[n]])
  }

  function Concat(fields: seq<string>): string
    decreases |fields|
  {
    if fields == [] then [] else fields[0] + Concat(fields[1..])
  }

  /** The fields `done`, then `current` continued by the first of `rest`, then the rest of `rest`. */
  function Glue(done: seq<string>, current: string, rest: seq<string>): seq<string>
    requires |rest| >= 1
  {
    done + [current + rest[0]] + rest[1..]
  }

  // ---------------------------------------------------------------------------
  // CSVParser.parseRow and CSVParser.parse
  // ---------------------------------------------------------------------------

  /** `CSVParser.parseRow`: one pass over the characters with a quote flag. */
  method ParseRow(row: string) returns (columns: seq<string>)
    ensures columns == SplitRow(row)
  {
    columns := [];
    var currentColumn := "";
    var insideQuotes := false;
    var i := 0;
    assert row[0..] == row;
    SplitGlue([], Scan(row, false));
    while i < |row|
      invariant 0 <= i <= |row|
      invariant SplitRow(row) == Glue(columns, currentColumn, Scan(row[i..], insideQuotes))
    {
      var c := row[i];
      var rest := Scan(row[i + 1..], insideQuotes);
      assert row[i..][1..] == row[i + 1..];
      if c == '"' {
        insideQuotes := !insideQuotes;
      } else if c == ',' && !insideQuotes {
        assert Scan(row[i..], insideQuotes) == [[]] + rest;
        GlueSeparator(columns, currentColumn, rest);
        columns := columns + [currentColumn];
        currentColumn := "";
      } else {
        assert Scan(row[i..], insideQuotes) == [[c] + rest[0]] + rest[1..];
        GlueChar(columns, currentColumn, c, rest);
        currentColumn := currentColumn + [c];
      }
      i := i + 1;
    }
    assert row[i..] == [];
    assert currentColumn + [] == currentColumn;
    columns := columns + [currentColumn];
  }

  lemma SplitGlue(done: seq<string>, rest: seq<string>)
    requires |rest| >= 1
    ensures Glue(done, "", rest) == done + rest
  {
    assert [] + rest[0] == rest[0];
    assert rest == [rest[0]] + rest[1..];
  }

  lemma GlueSeparator(done: seq<string>, current: string, rest: seq<string>)
    requires |rest| >= 1
    ensures Glue(done, current, [[]] + rest) == Glue(done + [current], "", rest)
  {
    assert current + [] == current;
    SplitGlue(done + [current], rest);
  }

  lemma GlueChar(done: seq<string>, current: string, c: char, rest: seq<string>)
    requires |rest| >= 1
    ensures Glue(done, current, [[c] + rest[0]] + rest[1..]) == Glue(done, current + [c], rest)
  {
    assert current + ([c] + rest[0]) == (current + [c]) + rest[0];
  }

  /** `components(separatedBy: .newlines)`: the text between newline characters. */
  function Lines(text: string): (lines: seq<string>)
    ensures |lines| >= 1
    decreases |text|
  {
    if text == [] then [[]]
    else if IsNewline(text[0]) then [[]] + Lines(text[1..])
    else
      var rest := Lines(text[1..]);
      [[text[0]] + rest[0]] + rest[1..]
  }

  /** The rows of the non-empty lines among `lines`, in order. */
  function RowsOf(lines: seq<string>): seq<seq<string>>
    decreases |lines|
  {
    if lines == [] then []
    else
      var last := lines[|lines| - 1];
      RowsOf(lines[..|lines| - 1]) + (if last == [] then [] else [SplitRow(last)])
  }

  /** What `CSVParser.parse` returns for `text`: every line but the first, empty ones dropped. */
  function ParsedRows(text: string): seq<seq<string>> {
    RowsOf(Lines(text)[1..])
  }

  /** `CSVParser.parse`. */
  method Parse(text: string) returns (result: seq<seq<string>>)
    ensures result == ParsedRows(text)
  {
    result := [];
    var rows := Lines(text);
    if |rows| > 0 {
      rows := rows[1..];
    }
    var i := 0;
    while i < |rows|
      invariant 0 <= i <= |rows|
      invariant result == RowsOf(rows[..i])
    {
      assert rows[..i + 1][..i] == rows[..i];
      if rows[i] != [] {
        var columns := ParseRow(rows[i]);
        result := result + [columns];
      }
      i := i + 1;
    }
    assert rows[..i] == rows;
  }

  // ---------------------------------------------------------------------------
  // Properties of the row tokenizer
  // ---------------------------------------------------------------------------

  /** No field ever holds a double quote. */
  lemma {:induction false} ScanHasNoQuotes(row: string, inside: bool)
    ensures forall k :: 0 <= k < |Scan(row, inside)| ==> '"' !in Scan(row, inside)[k]
    decreases |row|
  {
    if row != [] {
      ScanHasNoQuotes(row[1..], inside);
      ScanHasNoQuotes(row[1..], !inside);
    }
  }

  /** The fields `f`, their last one continued by the first of `r`, then the rest of `r`. */
  function Continue(f: seq<string>, r: seq<string>): seq<string>
    requires |f| >= 1 && |r| >= 1
  {
    Glue(f[..|f| - 1], f[|f| - 1], r)
  }

  /** Scanning `p + q` continues the last field of `p` with the first field of `q`. */
  lemma {:induction false} ScanAppend(p: string, q: string, inside: bool)
    ensures Scan(p + q, inside) == Continue(Scan(p, inside), Scan(q, InsideAfter(p, inside)))
    decreases |p|
  {
    if p == [] {
      assert p + q == q;
      SplitGlue([], Scan(q, inside));
    } else {
      var pq := p + q;
      assert pq[0] == p[0];
      assert pq[1..] == p[1..] + q;
      var r := Scan(q, InsideAfter(p, inside));
      if p[0] == '"' {
        ScanAppend(p[1..], q, !inside);
      } else if p[0] == ',' && !inside {
        ScanAppend(p[1..], q, inside);
        var f := Scan(p[1..], inside);
        assert Scan(pq, inside) == [[]] + Continue(f, r);
        assert Scan(p, inside) == [[]] + f;
        GlueAfterEmpty(f, r);
      } else {
        ScanAppend(p[1..], q, inside);
        var f := Scan(p[1..], inside);
        var g := Scan(pq[1..], inside);
        assert g == Continue(f, r);
        assert Scan(pq, inside) == [[p[0]] + g[0]] + g[1..];
        assert Scan(p, inside) == [[p[0]] + f[0]] + f[1..];
        GlueAfterChar(p[0], f, r);
      }
    }
  }

  lemma GlueAfterEmpty(f: seq<string>, r: seq<string>)
    requires |f| >= 1 && |r| >= 1
    ensures [[]] + Continue(f, r) == Continue([[]] + f, r)
  {
    var e := [[]] + f;
    assert e[..|e| - 1] == [[]] + f[..|f| - 1];
  }

  lemma GlueAfterChar(c: char, f: seq<string>, r: seq<string>)
    requires |f| >= 1 && |r| >= 1
    ensures var g := Continue(f, r);
            [[c] + g[0]] + g[1..] == Continue([[c] + f[0]] + f[1..], r)
  {
    var g := Glue(f[..|f| - 1], f[|f| - 1], r);
    var e := [[c] + f[0]] + f[1..];
    if |f| == 1 {
      assert g == [f[0] + r[0]] + r[1..];
      assert [c] + (f[0] + r[0]) == ([c] + f[0]) + r[0];
    } else {
      assert g[0] == f[0];
      assert g[1..] == f[1..|f| - 1] + [f[|f| - 1] + r[0]] + r[1..];
      assert e[..|e| - 1] == [[c] + f[0]] + f[1..|f| - 1];
    }
  }

  lemma {:induction false} InsideAfterParity(s: string, inside: bool)
    ensures InsideAfter(s, inside) == (inside != (CountQuotes(s) % 2 == 1))
    decreases |s|
  {
    if s != [] {
      InsideAfterParity(s[1..], if s[0] == '"' then !inside else inside);
    }
  }

  lemma {:induction false} ConcatAppend(a: seq<string>, b: seq<string>)
    ensures Concat(a + b) == Concat(a) + Concat(b)
    decreases |a|
  {
    if a == [] {
      assert a + b == b;
    } else {
      assert (a + b)[1..] == a[1..] + b;
      ConcatAppend(a[1..], b);
    }
  }

  /** Scanning `p` and then one more character `c`. */
  lemma ScanSnoc(p: string, c: char)
    ensures var f := Scan(p, false);
            var x := CountQuotes(p) % 2 == 1;
            Scan(p + [c], false) ==
              if c == '"' then f
              else if c == ',' && !x then f + [[]]
              else f[..|f| - 1] + [f[|f| - 1] + [c]]
  {
    ScanAppend(p, [c], false);
    InsideAfterParity(p, false);
    var x := InsideAfter(p, false);
    ScanOne(c, x);
    ContinueOne(Scan(p, false), Scan([c], x));
  }

  /** The fields of a one-character row. */
  lemma ScanOne(c: char, inside: bool)
    ensures Scan([c], inside) == if c == '"' then [[]] else if c == ',' && !inside then [[], []] else [[c]]
  {
    assert [c][0] == c && [c][1..] == [];
    assert Scan([], inside) == [[]] && Scan([], !inside) == [[]];
    assert [c] + [] == [c];
  }

  /** Continuing with the fields of a one-character row. */
  lemma ContinueOne(f: seq<string>, r: seq<string>)
    requires |f| >= 1 && (r == [[]] || r == [[], []] || (|r| == 1 && |r[0]| == 1))
    ensures r == [[]] ==> Continue(f, r) == f
    ensures r == [[], []] ==> Continue(f, r) == f + [[]]
    ensures |r| == 1 && |r[0]| == 1 ==> Continue(f, r) == f[..|f| - 1] + [f[|f| - 1] + r[0]]
  {
    var n := |f| - 1;
    assert f[n] + [] == f[n];
    assert f[..n] + [f[n]] == f;
  }

  /** `parseRow` returns one field more than there are separating commas, so never nothing. */
  lemma {:induction false} SplitRowCount(row: string)
    ensures |SplitRow(row)| == 1 + SeparatorCount(row)
    decreases |row|
  {
    if row != [] {
      var p := row[..|row| - 1];
      assert row == p + [row[|row| - 1]];
      assert row[..|row| - 1] == p;
      ScanSnoc(p, row[|row| - 1]);
      SplitRowCount(p);
    }
  }

  /** The fields, put back together, are the row without quotes and without separating commas. */
  lemma {:induction false} SplitRowConcat(row: string)
    ensures Concat(SplitRow(row)) == Kept(row)
    decreases |row|
  {
    if row != [] {
      var p := row[..|row| - 1];
      var c := row[|row| - 1];
      assert row == p + [c];
      ScanSnoc(p, c);
      SplitRowConcat(p);
      var f := Scan(p, false);
      ConcatAppend(f[..|f| - 1], [f[|f| - 1]]);
      assert f == f[..|f| - 1] + [f[|f| - 1]];
      assert Concat([f[|f| - 1]]) == f[|f| - 1];
      if c == '"' {
      } else if c == ',' && CountQuotes(p) % 2 == 0 {
        ConcatAppend(f, [[]]);
      } else {
        ConcatAppend(f[..|f| - 1], [f[|f| - 1] + [c]]);
        assert Concat([f[|f| - 1] + [c]]) == f[|f| - 1] + [c];
      }
    }
  }

  lemma {:induction false} ScanPlain(f: string, inside: bool)
    requires '"' !in f && (inside || ',' !in f)
    ensures Scan(f, inside) == [f]
    ensures InsideAfter(f, inside) == inside
    decreases |f|
  {
    if f != [] {
      ScanPlain(f[1..], inside);
      assert f == [f[0]] + f[1..];
    }
  }

  /** Fields without commas and quotes, joined with commas, are split back into themselves. */
  lemma {:induction false} SplitRowOfJoin(fields: seq<string>)
    requires |fields| >= 1
    requires forall k :: 0 <= k < |fields| ==> ',' !in fields[k] && '"' !in fields[k]
    ensures SplitRow(Join(fields, ",")) == fields
    decreases |fields|
  {
    ScanPlain(fields[0], false);
    if |fields| > 1 {
      var rest := Join(fields[1..], ",");
      SplitRowOfJoin(fields[1..]);
      SplitAfterPlainField(fields[0], rest);
      assert fields == [fields[0]] + fields[1..];
    }
  }

  /** A field without commas and quotes, a comma, then `rest`. */
  lemma SplitAfterPlainField(field: string, rest: string)
    requires ',' !in field && '"' !in field
    ensures SplitRow(field + "," + rest) == [field] + SplitRow(rest)
  {
    var tail := [','] + rest;
    ScanPlain(field, false);
    ScanAppend(field, tail, false);
    assert tail[0] == ',' && tail[1..] == rest;
    assert Scan(tail, false) == [[]] + SplitRow(rest);
    assert field + "," + rest == field + tail;
    assert field + [] == field;
    assert Continue([field], [[]] + SplitRow(rest)) == [field] + SplitRow(rest);
  }

  /** A comma after an odd number of quotes is kept in the current field. */
  lemma OddQuotesKeepComma(p: string, q: string)
    requires CountQuotes(p) % 2 == 1
    ensures var f := SplitRow(p);
            SplitRow(p + [','] + q) == Glue(f[..|f| - 1], f[|f| - 1] + [','], Scan(q, true))
  {
    var tail := [','] + q;
    ScanAppend(p, tail, false);
    InsideAfterParity(p, false);
    assert p + [','] + q == p + tail;
    assert tail[0] == ',' && tail[1..] == q;
    var r := Scan(q, true);
    assert Scan(tail, true) == [[','] + r[0]] + r[1..];
    var f := SplitRow(p);
    GlueChar(f[..|f| - 1], f[|f| - 1], ',', r);
  }

  /** After an unmatched quote, the rest of the row, commas included, is one field. */
  lemma UnmatchedQuoteTakesRest(p: string, q: string)
    requires CountQuotes(p) % 2 == 0 && '"' !in q
    ensures var f := SplitRow(p);
            SplitRow(p + ['"'] + q) == f[..|f| - 1] + [f[|f| - 1] + q]
  {
    ScanAppend(p, ['"'] + q, false);
    InsideAfterParity(p, false);
    assert p + ['"'] + q == p + (['"'] + q);
    assert (['"'] + q)[1..] == q;
    ScanPlain(q, true);
  }

  // ---------------------------------------------------------------------------
  // Properties of the line splitter
  // ---------------------------------------------------------------------------

  /** The first line of `h + newline + body` is `h`, and the others are the lines of `body`. */
  lemma {:induction false} LinesAfterFirst(h: string, nl: char, body: string)
    requires IsNewline(nl) && forall k :: 0 <= k < |h| ==> !IsNewline(h[k])
    ensures Lines(h + [nl] + body) == [h] + Lines(body)
    decreases |h|
  {
    var t := h + [nl] + body;
    if h == [] {
      assert t == [nl] + body;
      assert t[1..] == body;
    } else {
      assert t[0] == h[0];
      assert t[1..] == h[1..] + [nl] + body;
      LinesAfterFirst(h[1..], nl, body);
      assert h == [h[0]] + h[1..];
    }
  }

  /** Taking rows of two blocks of lines one after the other keeps their order. */
  lemma {:induction false} RowsOfAppend(a: seq<string>, b: seq<string>)
    ensures RowsOf(a + b) == RowsOf(a) + RowsOf(b)
    decreases |b|
  {
    if b == [] {
      assert a + b == a;
    } else {
      var n := |b| - 1;
      assert (a + b)[..|a + b| - 1] == a + b[..n];
      assert (a + b)[|a + b| - 1] == b[n];
      RowsOfAppend(a, b[..n]);
    }
  }

  /** Every row comes from a non-empty line, has at least one field, and holds no quote. */
  lemma {:induction false} RowsOfShape(lines: seq<string>)
    ensures |RowsOf(lines)| <= |lines|
    ensures forall r :: r in RowsOf(lines) ==> |r| >= 1 && exists l :: l in lines && l != [] && r == SplitRow(l)
    ensures forall r, k :: r in RowsOf(lines) && 0 <= k < |r| ==> '"' !in r[k]
    decreases |lines|
  {
    if lines != [] {
      var init := lines[..|lines| - 1];
      var last := lines[|lines| - 1];
      RowsOfShape(init);
      ScanHasNoQuotes(last, false);
      forall r | r in RowsOf(lines)
        ensures |r| >= 1 && exists l :: l in lines && l != [] && r == SplitRow(l)
      {
        if r in RowsOf(init) {
          var l :| l in init && l != [] && r == SplitRow(l);
          assert l in lines;
        } else {
          assert r == SplitRow(last);
        }
      }
    }
  }

  /** `parse` never keeps the header: the rows are those of the lines after the first. */
  lemma ParseDropsHeader(header: string, nl: char, body: string)
    requires IsNewline(nl) && forall k :: 0 <= k < |header| ==> !IsNewline(header[k])
    ensures ParsedRows(header + [nl] + body) == RowsOf(Lines(body))
  {
    LinesAfterFirst(header, nl, body);
    assert ([header] + Lines(body))[1..] == Lines(body);
  }

  /** `parse` returns at most one row per line after the header, each non-empty. */
  lemma ParsedRowsBound(text: string)
    ensures |ParsedRows(text)| <= |Lines(text)| - 1
    ensures forall r :: r in ParsedRows(text) ==> |r| >= 1
  {
    RowsOfShape(Lines(text)[1..]);
  }
}
