/** One input line in, one output line out: header lines are echoed, data
    lines are rebuilt with FORMAT forced to `GT` and only the genotype kept
    for each sample. */
module LineRewriter {
  import opened Text
  import opened Decimal
  import opened Vcf

  /** Why a data line is not read as nine leading columns and samples. */
  datatype LineError =
    | TooFewColumns      // fewer than nine tab-separated columns
    | BadLeadingColumn   // a leading column is empty or holds white space
    | BadPosition        // POS is not a run of digits that fits an `int`

  datatype Result<T> = Ok(value: T) | Err(error: LineError)

  /** A data line read up to FORMAT: the nine leading values, and the text the
      stream still holds after them. */
  datatype DataLine = DataLine(lead: LeadingFields, rest: string)

  /** The largest value of the source's 32-bit `int` POS field. */
  const IntMax: nat := 0x7FFF_FFFF

  /** The only FORMAT the rewriter writes. */
  const FixedFormat := "GT"

  predicate IsHeader(line: string)
  {
    |line| > 0 && line[0] == '#'
  }

  /** The characters a stream extraction treats as separators. */
  predicate IsSpace(c: char)
  {
    c == ' ' || c == '\t' || c == '\n' || c == '\U{000B}' || c == '\U{000C}' || c == '\r'
  }

  /** A column that one stream extraction reads whole. */
  predicate IsWord(s: string)
  {
    s != [] && forall k :: 0 <= k < |s| ==> !IsSpace(s[k])
  }

  /** The leading columns are nine words and POS fits an `int`. */
  predicate LeadingColumnsOk(cols: seq<string>)
  {
    && |cols| >= 9
    && (forall k :: 0 <= k < 9 ==> IsWord(cols[k]))
    && AllDigits(cols[1])
    && ParseNat(cols[1]) <= IntMax
  }

  /** A data line given as its tab-separated columns. */
  function ParseColumns(cols: seq<string>): (r: Result<DataLine>)
    ensures r.Ok? <==> LeadingColumnsOk(cols)
  {
    if |cols| < 9 then Err(TooFewColumns)
    else if exists k :: 0 <= k < 9 && !IsWord(cols[k]) then Err(BadLeadingColumn)
    else if !AllDigits(cols[1]) || ParseNat(cols[1]) > IntMax then Err(BadPosition)
    else
      var lead := LeadingFields(cols[0], ParseNat(cols[1]), cols[2], cols[3], cols[4],
                                cols[5], cols[6], cols[7], cols[8]);
      Ok(DataLine(lead, if |cols| == 9 then "" else "\t" + Join(cols[9..], '\t')))
  }

  /** The nine stream extractions of `GetBasicInfo`, on lines where they agree
      with splitting on tabs. */
  function ParseDataLine(line: string): Result<DataLine>
  {
    ParseColumns(Split(line, '\t'))
  }

  /** The columns written for a data line: INFO is passed through, FORMAT is
      `GT`, and each sample keeps only its genotype. */
  function OutputColumns(d: DataLine): seq<string>
  {
    [d.lead.chr, NatToString(d.lead.pos), d.lead.id, d.lead.ref, d.lead.alt,
     d.lead.qual, d.lead.filter, d.lead.info, FixedFormat] + SampleGenotypes(d.rest)
  }

  /** What the rewriter writes for one input line. */
  function RewriteLine(line: string): Result<string>
  {
    if IsHeader(line) then Ok(line)
    else
      match ParseDataLine(line)
      case Err(e) => Err(e)
      case Ok(d) => Ok(Join(OutputColumns(d), '\t'))
  }

  /** The loop body of `main` for one line. */
  method ProcessLine(line: string) returns (out: Result<string>)
    ensures out == RewriteLine(line)
    ensures IsHeader(line) ==> out == Ok(line)
  {
    if line != [] && line[0] == '#' {
      return Ok(line);
    }
    var parsed := ParseDataLine(line);
    if parsed.Err? {
      return Err(parsed.error);
    }
    var v := new Variant();
    var ss := new Stream(parsed.value.rest);
    v.GetBasicInfo(parsed.value.lead);
    v.format := FixedFormat;
    var _ := v.ExtractGT(ss);
    assert v.gt == SampleGenotypes(parsed.value.rest);
    assert v.Columns() == OutputColumns(parsed.value);
    var text := v.PrintVariant();
    out := Ok(text);
  }

  /** The remainder is exactly what follows the nine leading columns in the
      line, so the stream is where the ninth extraction leaves it. */
  lemma RestIsSuffix(line: string)
    requires ParseDataLine(line).Ok?
    ensures line == Join(Split(line, '\t')[..9], '\t') + ParseDataLine(line).value.rest
  {
    var cols := Split(line, '\t');
    JoinSplit(line, '\t');
    if |cols| == 9 {
      assert cols[..9] == cols;
    } else {
      assert cols == cols[..9] + cols[9..];
      JoinAppend(cols[..9], cols[9..], '\t');
    }
  }

  /** The sample columns of a data line are its columns after FORMAT, except
      that an empty last column (a line ending in a tab) is not read. */
  lemma SampleColumnsOfLine(cols: seq<string>)
    requires LeadingColumnsOk(cols)
    requires forall k :: 0 <= k < |cols| ==> '\t' !in cols[k]
    ensures SampleColumns(Tokens(ParseColumns(cols).value.rest, '\t')) == DropEmptyLast(cols[9..])
  {
    var rest := ParseColumns(cols).value.rest;
    if |cols| > 9 {
      var joined := Join(cols[9..], '\t');
      IndexOfUnique(rest, '\t', 0);
      assert rest[1..] == joined;
      TokensJoin(cols[9..], '\t');
    }
  }

  /** The columns written for a data line whose tab-separated columns are
      `cols`. */
  function ExpectedColumns(cols: seq<string>): seq<string>
    requires |cols| >= 9 && AllDigits(cols[1])
  {
    [cols[0], NatToString(ParseNat(cols[1])), cols[2], cols[3], cols[4],
     cols[5], cols[6], cols[7], FixedFormat] + GenotypesOf(DropEmptyLast(cols[9..]))
  }

  /** The output columns of a data line, in terms of its tab-separated
      columns. */
  lemma OutputColumnsOfLine(cols: seq<string>)
    requires LeadingColumnsOk(cols)
    requires forall k :: 0 <= k < |cols| ==> '\t' !in cols[k]
    ensures OutputColumns(ParseColumns(cols).value) == ExpectedColumns(cols)
  {
    var d := ParseColumns(cols).value;
    assert d.lead == LeadingFields(cols[0], ParseNat(cols[1]), cols[2], cols[3], cols[4],
                                   cols[5], cols[6], cols[7], cols[8]);
    SampleColumnsOfLine(cols);
  }

  /** No part contains `c`. */
  predicate Avoids(parts: seq<string>, c: char)
  {
    forall k :: 0 <= k < |parts| ==> c !in parts[k]
  }

  lemma AvoidsAppend(a: seq<string>, b: seq<string>, c: char)
    requires Avoids(a, c) && Avoids(b, c)
    ensures Avoids(a + b, c)
  {
  }

  /** A character that is in no column of the line, is not a digit and is
      not in `GT` is in no output column. */
  lemma ExpectedColumnsAvoid(cols: seq<string>, c: char)
    requires |cols| >= 9 && AllDigits(cols[1])
    requires Avoids(cols, c) && !IsDigit(c) && c !in FixedFormat
    ensures Avoids(ExpectedColumns(cols), c)
  {
  }

  /** A data line comes out as exactly these columns, 9 plus one per sample:
      CHROM, ID, REF, ALT, QUAL, FILTER and INFO unchanged, POS as the decimal
      of its value, FORMAT replaced by `GT`, and the genotype of each sample
      column, in order. */
  lemma DataLineColumns(line: string)
    requires !IsHeader(line) && ParseDataLine(line).Ok?
    ensures var cols := Split(line, '\t');
      && RewriteLine(line).Ok?
      && LeadingColumnsOk(cols)
      && Split(RewriteLine(line).value, '\t') == ExpectedColumns(cols)
      && |ExpectedColumns(cols)| == 9 + |DropEmptyLast(cols[9..])|
  {
    var cols := Split(line, '\t');
    OutputColumnsOfLine(cols);
    ExpectedColumnsAvoid(cols, '\t');
    SplitJoin(ExpectedColumns(cols), '\t');
  }

  /** The POS column written out reads back as the POS value read in. */
  lemma PositionRoundTrip(cols: seq<string>)
    requires |cols| >= 9 && AllDigits(cols[1])
    ensures var written := ExpectedColumns(cols)[1];
      AllDigits(written) && ParseNat(written) == ParseNat(cols[1])
  {
    ParseNatToString(ParseNat(cols[1]));
  }

  /** A line without a line break gives exactly one output line: the text
      written has no line break of its own. */
  lemma OneLineOut(line: string)
    requires '\n' !in line && RewriteLine(line).Ok?
    ensures '\n' !in RewriteLine(line).value
  {
    if !IsHeader(line) {
      var cols := Split(line, '\t');
      forall k | 0 <= k < |cols| ensures '\n' !in cols[k] {
        if '\n' in cols[k] {
          SplitChars(line, '\t', k, '\n');
        }
      }
      OutputColumnsOfLine(cols);
      ExpectedColumnsAvoid(cols, '\n');
      if '\n' in Join(ExpectedColumns(cols), '\t') {
        JoinChars(ExpectedColumns(cols), '\t', '\n');
      }
    }
  }
}
