/** The page's CSV text: a fixed header line, then one line per row with the
    fields joined by commas, the lines joined by newlines. No field is quoted
    or escaped. `DecodeText` reads such a text back; the round-trip
    lemmas below prove it undoes `Text`. */
module Csv {
  import opened Rows

  const FieldSep := ','
  const LineSep := '\n'

  /** The column names, in the order the rows' fields are written. */
  const HeaderFields: seq<string> := ["avatar_id", "level", "title_id", "user_id", "user_name"]

  /** `parts` joined with `sep` between neighbours (as JavaScript's `join`). */
  function Join(parts: seq<string>, sep: char): string
  {
    if |parts| == 0 then ""
    else if |parts| == 1 then parts[0]
    else parts[0] + [sep] + Join(parts[1..], sep)
  }

  /** `s` cut at every `sep` (as JavaScript's `split`). */
  function Split(s: string, sep: char): (parts: seq<string>)
    ensures |parts| >= 1
  {
    if |s| == 0 then [""]
    else
      var rest := Split(s[1..], sep);
      if s[0] == sep then [""] + rest
      else [[s[0]] + rest[0]] + rest[1..]
  }

  /** How many times `c` occurs in `s`. */
  function CountOf(s: string, c: char): nat
  {
    if |s| == 0 then 0 else (if s[0] == c then 1 else 0) + CountOf(s[1..], c)
  }

  /** A text without `sep` splits into itself. */
  lemma {:induction false} SplitNoSep(a: string, sep: char)
    requires sep !in a
    ensures Split(a, sep) == [a]
  {
    if |a| > 0 {
      SplitNoSep(a[1..], sep);
      assert [a[0]] + a[1..] == a;
    }
  }

  /** Cutting `a + [sep] + b`, where `a` holds no `sep`, yields `a` and then the pieces of `b`. */
  lemma {:induction false} SplitAfter(a: string, b: string, sep: char)
    requires sep !in a
    ensures Split(a + [sep] + b, sep) == [a] + Split(b, sep)
  {
    if |a| == 0 {
      assert a + [sep] + b == [sep] + b;
      assert ([sep] + b)[1..] == b;
    } else {
      SplitAfter(a[1..], b, sep);
      assert (a + [sep] + b)[1..] == a[1..] + [sep] + b;
      assert [a[0]] + a[1..] == a;
    }
  }

  /** Splitting undoes joining when no part holds the separator. */
  lemma {:induction false} SplitJoin(parts: seq<string>, sep: char)
    requires |parts| >= 1
    requires forall i :: 0 <= i < |parts| ==> sep !in parts[i]
    ensures Split(Join(parts, sep), sep) == parts
  {
    if |parts| == 1 {
      SplitNoSep(parts[0], sep);
    } else {
      SplitJoin(parts[1..], sep);
      SplitAfter(parts[0], Join(parts[1..], sep), sep);
      assert parts == [parts[0]] + parts[1..];
    }
  }

  /** A text splits into one more piece than it has separators. */
  lemma {:induction false} SplitCount(s: string, sep: char)
    ensures |Split(s, sep)| == 1 + CountOf(s, sep)
  {
    if |s| > 0 {
      SplitCount(s[1..], sep);
    }
  }

  /** Occurrence counts add up over concatenation. */
  lemma {:induction false} CountOfAppend(a: string, b: string, c: char)
    ensures CountOf(a + b, c) == CountOf(a, c) + CountOf(b, c)
  {
    if |a| > 0 {
      assert (a + b)[1..] == a[1..] + b;
      CountOfAppend(a[1..], b, c);
    } else {
      assert a + b == b;
    }
  }

  /** A text without `c` counts no `c`; one with `c` counts at least one. */
  lemma {:induction false} CountOfZero(s: string, c: char)
    ensures CountOf(s, c) == 0 <==> c !in s
  {
    if |s| > 0 {
      CountOfZero(s[1..], c);
      assert s == [s[0]] + s[1..];
    }
  }

  /** The character of the decimal digit `d`. */
  function DigitChar(d: nat): char
    requires d < 10
  {
    (48 + d) as char
  }

  predicate IsDigit(c: char)
  {
    '0' <= c <= '9'
  }

  predicate AllDigits(s: string)
  {
    forall i :: 0 <= i < |s| ==> IsDigit(s[i])
  }

  /** The decimal digits of `n`, most significant first, without leading zeros. */
  function NatToString(n: nat): (s: string)
    ensures |s| >= 1 && AllDigits(s)
    ensures |s| > 1 ==> s[0] != '0'
  {
    if n < 10 then [DigitChar(n)] else NatToString(n / 10) + [DigitChar(n % 10)]
  }

  /** How the page prints an integral level or title: its decimal digits,
      with a leading minus sign when it is negative. */
  function IntToString(n: int): string
  {
    if n < 0 then "-" + NatToString(-n) else NatToString(n)
  }

  /** The value of a nonempty digit string. */
  function ParseNat(s: string): nat
    requires |s| >= 1 && AllDigits(s)
  {
    var d := s[|s| - 1] as int - 48;
    if |s| == 1 then d else 10 * ParseNat(s[..|s| - 1]) + d
  }

  /** The integer a decimal field denotes, or `None` when it is not one. */
  function ParseInt(s: string): Option<int>
  {
    if |s| >= 2 && s[0] == '-' && AllDigits(s[1..]) then Some(-(ParseNat(s[1..]) as int))
    else if |s| >= 1 && AllDigits(s) then Some(ParseNat(s))
    else None
  }

  /** Reading back printed digits gives the number. */
  lemma {:induction false} ParseNatToString(n: nat)
    ensures ParseNat(NatToString(n)) == n
  {
    if n >= 10 {
      var s := NatToString(n);
      assert s[..|s| - 1] == NatToString(n / 10);
      ParseNatToString(n / 10);
    }
  }

  /** Reading back a printed integer gives the integer. */
  lemma ParseIntToString(n: int)
    ensures ParseInt(IntToString(n)) == Some(n)
  {
    if n < 0 {
      ParseNatToString(-n);
      assert IntToString(n)[1..] == NatToString(-n);
    } else {
      ParseNatToString(n);
    }
  }

  /** A printed integer holds neither separator. */
  lemma IntToStringPlain(n: int)
    ensures FieldSep !in IntToString(n) && LineSep !in IntToString(n)
  {
  }

  /** The fields of a row in column order. */
  function Fields(row: Row): seq<string>
  {
    [row.avatarId, IntToString(row.level), IntToString(row.titleId), row.userId, row.userName]
  }

  /** The CSV line of one row. */
  function Line(row: Row): string
  {
    Join(Fields(row), FieldSep)
  }

  /** The header line. */
  function Header(): string
  {
    Join(HeaderFields, FieldSep)
  }

  /** One CSV line per row, in order. Each line reads back as its row exactly
      when the row's text fields hold no comma. */
  function Lines(rows: seq<Row>): (ls: seq<string>)
    ensures |ls| == |rows|
    ensures forall i :: 0 <= i < |rows| ==> (DecodeLine(ls[i]) == Some(rows[i]) <==> NoComma(rows[i]))
  {
    var ls := seq(|rows|, i requires 0 <= i < |rows| => Line(rows[i]));
    assert forall i :: 0 <= i < |rows| ==> (DecodeLine(ls[i]) == Some(rows[i]) <==> NoComma(rows[i])) by {
      forall i | 0 <= i < |rows| ensures DecodeLine(ls[i]) == Some(rows[i]) <==> NoComma(rows[i]) {
        LineRoundTrip(rows[i]);
      }
    }
    ls
  }

  /** The whole CSV text: the header line and the rows' lines, newline-joined,
      with no newline at the end. */
  function Text(rows: seq<Row>): string
  {
    Join([Header()] + Lines(rows), LineSep)
  }

  /** The row a CSV line denotes, or `None` when it does not have exactly five
      fields or its level or title is not an integer. */
  function DecodeLine(line: string): Option<Row>
  {
    var f := Split(line, FieldSep);
    if |f| != 5 then None
    else
      match (ParseInt(f[1]), ParseInt(f[2]))
      case (Some(level), Some(title)) => Some(Row(f[0], level, title, f[3], f[4]))
      case _ => None
  }

  /** The rows a sequence of CSV lines denotes, or `None` if any line is malformed. */
  function DecodeLines(lines: seq<string>): Option<seq<Row>>
  {
    if |lines| == 0 then Some([])
    else
      match (DecodeLine(lines[0]), DecodeLines(lines[1..]))
      case (Some(row), Some(rest)) => Some([row] + rest)
      case _ => None
  }

  /** The rows a CSV text denotes, or `None` when the header is wrong or a line
      is malformed. */
  function DecodeText(text: string): Option<seq<Row>>
  {
    var lines := Split(text, LineSep);
    if lines[0] != Header() then None else DecodeLines(lines[1..])
  }

  /** No comma in the row's free-text fields. */
  predicate NoComma(row: Row)
  {
    FieldSep !in row.avatarId && FieldSep !in row.userId && FieldSep !in row.userName
  }

  /** No newline in the row's free-text fields. */
  predicate NoNewline(row: Row)
  {
    LineSep !in row.avatarId && LineSep !in row.userId && LineSep !in row.userName
  }

  /** A joined text holds a character other than the separator only if some part does. */
  lemma {:induction false} JoinAvoids(parts: seq<string>, sep: char, c: char)
    requires c != sep
    requires forall i :: 0 <= i < |parts| ==> c !in parts[i]
    ensures c !in Join(parts, sep)
  {
    if |parts| > 1 {
      JoinAvoids(parts[1..], sep, c);
    }
  }

  /** A row's line written out: the five fields with a comma between neighbours. */
  lemma LineShape(row: Row)
    ensures Line(row) == row.avatarId + [FieldSep] + (IntToString(row.level) + [FieldSep] +
      (IntToString(row.titleId) + [FieldSep] + (row.userId + [FieldSep] + row.userName)))
  {
    var f4 := [row.userName];
    var f3 := [row.userId] + f4;
    var f2 := [IntToString(row.titleId)] + f3;
    var f1 := [IntToString(row.level)] + f2;
    var f0 := [row.avatarId] + f1;
    assert f3[1..] == f4 && f2[1..] == f3 && f1[1..] == f2 && f0[1..] == f1;
    assert Join(f3, FieldSep) == row.userId + [FieldSep] + row.userName;
    assert Join(f2, FieldSep) == IntToString(row.titleId) + [FieldSep] + Join(f3, FieldSep);
    assert Join(f1, FieldSep) == IntToString(row.level) + [FieldSep] + Join(f2, FieldSep);
    assert Fields(row) == f0;
  }

  /** The separators a row's line holds: the four between fields plus every
      comma inside a free-text field. */
  lemma LineCommas(row: Row)
    ensures CountOf(Line(row), FieldSep)
      == 4 + CountOf(row.avatarId, FieldSep) + CountOf(row.userId, FieldSep) + CountOf(row.userName, FieldSep)
  {
    var sep := [FieldSep];
    LineShape(row);
    IntToStringPlain(row.level);
    IntToStringPlain(row.titleId);
    CountOfZero(IntToString(row.level), FieldSep);
    CountOfZero(IntToString(row.titleId), FieldSep);
    CountOfAppend(row.userId + sep, row.userName, FieldSep);
    CountOfAppend(row.userId, sep, FieldSep);
    CountOfAppend(IntToString(row.titleId) + sep, row.userId + sep + row.userName, FieldSep);
    CountOfAppend(IntToString(row.titleId), sep, FieldSep);
    CountOfAppend(IntToString(row.level) + sep, IntToString(row.titleId) + sep + (row.userId + sep + row.userName), FieldSep);
    CountOfAppend(IntToString(row.level), sep, FieldSep);
    CountOfAppend(row.avatarId + sep, IntToString(row.level) + sep + (IntToString(row.titleId) + sep + (row.userId + sep + row.userName)), FieldSep);
    CountOfAppend(row.avatarId, sep, FieldSep);
  }

  /** A row's line reads back as the row exactly when its free-text fields
      hold no comma: the page does no quoting, so a comma in a name shifts
      the columns. */
  lemma LineRoundTrip(row: Row)
    ensures DecodeLine(Line(row)) == Some(row) <==> NoComma(row)
  {
    if NoComma(row) {
      IntToStringPlain(row.level);
      IntToStringPlain(row.titleId);
      SplitJoin(Fields(row), FieldSep);
      ParseIntToString(row.level);
      ParseIntToString(row.titleId);
    } else {
      SplitCount(Line(row), FieldSep);
      LineCommas(row);
      CountOfZero(row.avatarId, FieldSep);
      CountOfZero(row.userId, FieldSep);
      CountOfZero(row.userName, FieldSep);
    }
  }

  /** A row's line holds no newline when its free-text fields hold none. */
  lemma LineHasNoNewline(row: Row)
    requires NoNewline(row)
    ensures LineSep !in Line(row)
  {
    IntToStringPlain(row.level);
    IntToStringPlain(row.titleId);
    JoinAvoids(Fields(row), FieldSep, LineSep);
  }

  /** The text's lines are the header and then one line per row, so it has
      exactly one line more than there are rows and no trailing newline. */
  lemma TextLines(rows: seq<Row>)
    requires forall i :: 0 <= i < |rows| ==> NoNewline(rows[i])
    ensures Split(Text(rows), LineSep) == [Header()] + Lines(rows)
    ensures |Split(Text(rows), LineSep)| == |rows| + 1
  {
    var all := [Header()] + Lines(rows);
    forall i | 0 <= i < |all| ensures LineSep !in all[i] {
      if i > 0 {
        LineHasNoNewline(rows[i - 1]);
      } else {
        JoinAvoids(HeaderFields, FieldSep, LineSep);
      }
    }
    SplitJoin(all, LineSep);
  }

  /** Lines of clean rows read back as the rows. */
  lemma {:induction false} DecodeLinesOfRows(rows: seq<Row>)
    requires forall i :: 0 <= i < |rows| ==> NoComma(rows[i])
    ensures DecodeLines(Lines(rows)) == Some(rows)
  {
    if |rows| > 0 {
      LineRoundTrip(rows[0]);
      assert Lines(rows)[1..] == Lines(rows[1..]);
      DecodeLinesOfRows(rows[1..]);
      assert rows == [rows[0]] + rows[1..];
    }
  }

  /** The CSV text of rows whose free-text fields hold neither separator reads
      back as exactly those rows. */
  lemma TextRoundTrip(rows: seq<Row>)
    requires forall i :: 0 <= i < |rows| ==> NoComma(rows[i]) && NoNewline(rows[i])
    ensures DecodeText(Text(rows)) == Some(rows)
  {
    TextLines(rows);
    assert ([Header()] + Lines(rows))[1..] == Lines(rows);
    DecodeLinesOfRows(rows);
  }
}
