/** src/io_utils.c: `parse_single_row` splits one input line
    `location;temperature\n` at its first `;`, copying both parts into
    heap strings and converting the second with `atof`. */
module IoUtils {
  import opened Wrappers
  import opened Bytes
  import opened Seqs
  import opened CString
  import opened Dtypes

  /** `DataRow`: a location string and a temperature. */
  datatype DataRow = DataRow(location: String, temperature: real)

  /** What a line must look like for `parse_single_row` to stay defined: it
      has a `\n`, and a `;` comes before the first one (otherwise the
      location is never set and the scan runs past the line). */
  ghost predicate WellFormed(row: seq<byte>) {
    NEWLINE in row && SEMICOLON in row[..FirstIndex(row, NEWLINE)]
  }

  /** The bytes before the first `;`. */
  function Location(row: seq<byte>): (loc: seq<byte>)
    requires SEMICOLON in row
    ensures SEMICOLON !in loc
  {
    row[..FirstIndex(row, SEMICOLON)]
  }

  /** The bytes strictly between the first `;` and the first `\n`. */
  function TemperatureText(row: seq<byte>): (text: seq<byte>)
    requires WellFormed(row)
    ensures NEWLINE !in text
  {
    SemicolonBeforeNewline(row);
    row[FirstIndex(row, SEMICOLON) + 1..FirstIndex(row, NEWLINE)]
  }

  /** In a well-formed line the first `;` lies before the first `\n`. */
  lemma SemicolonBeforeNewline(row: seq<byte>)
    requires WellFormed(row)
    ensures SEMICOLON in row && FirstIndex(row, SEMICOLON) < FirstIndex(row, NEWLINE)
  {
    var nl := FirstIndex(row, NEWLINE);
    assert row == row[..nl] + row[nl..];
    FirstIndexAppend(row[..nl], row[nl..], SEMICOLON);
  }

  /** `parse_single_row`: the first loop counts the bytes before the first
      `;` and copies them into the location; the second counts the bytes
      from after the `;` up to the `\n` and copies them into a temporary
      string, which `atof` converts (given here as a parameter; the string
      is then freed). Every byte read lies at or before the first `\n`. */
  method ParseSingleRow(row: array<byte>, atof: seq<byte> -> real) returns (r: DataRow)
    requires WellFormed(row[..])
    ensures r.location.length == |Location(row[..])| && r.location.data.Length == r.location.length + 1
    ensures r.location.data[..r.location.length] == Location(row[..])
    ensures r.location.data[r.location.length] == NUL
    ensures NUL in TemperatureText(row[..]) + [NUL]
    ensures r.temperature == atof(Contents(TemperatureText(row[..]) + [NUL]))
  {
    ghost var line := row[..];
    ghost var nl := FirstIndex(line, NEWLINE);
    ghost var sc := FirstIndex(line, SEMICOLON);
    SemicolonBeforeNewline(line);
    var tmp := 0;
    var ctr := 0;
    var location: Option<String> := None;
    while row[tmp] != NEWLINE
      invariant 0 <= tmp <= sc && ctr == tmp
      invariant location.None?
      decreases sc - tmp
    {
      if row[tmp] == SEMICOLON {
        var s := StringCreate(row, 0, ctr);
        location := Some(s);
        ctr := 0;
        break;
      }
      tmp := tmp + 1;
      ctr := ctr + 1;
    }
    assert location.Some? && tmp == sc && ctr == 0;
    tmp := tmp + 1;
    while row[tmp] != NEWLINE
      invariant sc + 1 <= tmp <= nl && ctr == tmp - (sc + 1)
      decreases nl - tmp
    {
      tmp := tmp + 1;
      ctr := ctr + 1;
    }
    assert tmp == nl;
    var temp := StringCreate(row, tmp - ctr, ctr);
    assert temp.data[..] == TemperatureText(line) + [NUL] by {
      assert temp.data[..] == temp.data[..ctr] + [temp.data[ctr]];
    }
    r := DataRow(location.value, atof(Contents(temp.data[..])));
  }

  /** A line `loc;num\n...` with no `;` or `\n` in `loc` and no `\n` in
      `num` is well formed, and parses into `loc` and `num`. */
  lemma ParseRoundTrip(loc: seq<byte>, num: seq<byte>, rest: seq<byte>)
    requires SEMICOLON !in loc && NEWLINE !in loc && NEWLINE !in num
    ensures WellFormed(loc + [SEMICOLON] + num + [NEWLINE] + rest)
    ensures Location(loc + [SEMICOLON] + num + [NEWLINE] + rest) == loc
    ensures TemperatureText(loc + [SEMICOLON] + num + [NEWLINE] + rest) == num
  {
    var head := loc + [SEMICOLON] + num;
    var row := head + [NEWLINE] + rest;
    FirstAfter(loc, SEMICOLON, num + [NEWLINE] + rest);
    assert row == loc + [SEMICOLON] + (num + [NEWLINE] + rest);
    FirstAfter(head, NEWLINE, rest);
    assert row[..|head|] == head;
    assert head[|loc|] == SEMICOLON;
    assert row[..|loc|] == loc;
    assert row[|loc| + 1..|head|] == num;
  }

  /** The first `x` in `a + [x] + c` is at `|a|` when `a` holds none. */
  lemma FirstAfter(a: seq<byte>, x: byte, c: seq<byte>)
    requires x !in a
    ensures x in a + [x] + c && FirstIndex(a + [x] + c, x) == |a|
  {
    assert a + [x] + c == a + ([x] + c);
    FirstIndexAppend(a, [x] + c, x);
    assert ([x] + c)[0] == x;
  }

  /** When the temperature text holds no NUL, `atof` sees all of it. */
  lemma AtofSeesText(row: seq<byte>)
    requires WellFormed(row) && NUL !in TemperatureText(row)
    ensures Contents(TemperatureText(row) + [NUL]) == TemperatureText(row)
  {
    CharArrContents(TemperatureText(row));
  }
}
