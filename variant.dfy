/** One VCF data record: its nine leading columns, the genotype of each
    sample, and the record written back out as a tab-separated line. */
module Vcf {
  import opened Text
  import opened Decimal

  /** The nine leading columns of a data line (CHROM, POS, ID, REF, ALT,
      QUAL, FILTER, INFO, FORMAT), as the nine stream extractions read them. */
  datatype LeadingFields = LeadingFields(
    chr: string, pos: nat, id: string, ref: string, alt: string,
    qual: string, filter: string, info: string, format: string)

  /** The genotype of one sample column: the text before its first `:`, or
      the whole column when it has none. */
  function GenotypeOf(column: string): (gt: string)
    ensures |gt| <= |column| && gt == column[..|gt|]
    ensures ':' !in gt
    ensures |gt| == |column| || column[|gt|] == ':'
  {
    PrefixBefore(column, ':')
  }

  /** The genotypes of a run of sample columns, one each, in column order. */
  function GenotypesOf(columns: seq<string>): (gts: seq<string>)
    ensures |gts| == |columns|
    ensures forall k :: 0 <= k < |columns| ==> gts[k] == GenotypeOf(columns[k])
  {
    if columns == [] then [] else [GenotypeOf(columns[0])] + GenotypesOf(columns[1..])
  }

  /** The sample columns among the tab tokens of what follows FORMAT: the
      first token is the empty text between FORMAT and the tab after it. */
  function SampleColumns(tokens: seq<string>): seq<string>
  {
    if tokens == [] then [] else tokens[1..]
  }

  /** The genotypes `ExtractGT` stores for the unread rest of a line. */
  function SampleGenotypes(rest: string): seq<string>
  {
    GenotypesOf(SampleColumns(Tokens(rest, '\t')))
  }

  /** Reading one more token after the first appends its genotype. */
  lemma SampleGenotypesStep(seen: seq<string>, token: string)
    requires seen != []
    ensures GenotypesOf(SampleColumns(seen + [token])) == GenotypesOf(SampleColumns(seen)) + [GenotypeOf(token)]
  {
  }

  /** A genotype is a piece of its column, so a character absent from every
      column is absent from every genotype. */
  lemma GenotypesOfAvoid(columns: seq<string>, c: char)
    requires forall k :: 0 <= k < |columns| ==> c !in columns[k]
    ensures forall k :: 0 <= k < |columns| ==> c !in GenotypesOf(columns)[k]
  {
  }

  /** The nine leading columns joined, written out as `PrintVariant` does. */
  lemma JoinNine(a: string, b: string, c: string, d: string, e: string,
                 f: string, g: string, h: string, i: string)
    ensures Join([a, b, c, d, e, f, g, h, i], '\t') ==
      a + "\t" + b + "\t" + c + "\t" + d + "\t" + e + "\t" + f + "\t" + g + "\t" + h + "\t" + i
  {
    assert [a] + [b] == [a, b];
    JoinSnoc([a], b, '\t');
    assert [a, b] + [c] == [a, b, c];
    JoinSnoc([a, b], c, '\t');
    assert [a, b, c] + [d] == [a, b, c, d];
    JoinSnoc([a, b, c], d, '\t');
    assert [a, b, c, d] + [e] == [a, b, c, d, e];
    JoinSnoc([a, b, c, d], e, '\t');
    assert [a, b, c, d, e] + [f] == [a, b, c, d, e, f];
    JoinSnoc([a, b, c, d, e], f, '\t');
    assert [a, b, c, d, e, f] + [g] == [a, b, c, d, e, f, g];
    JoinSnoc([a, b, c, d, e, f], g, '\t');
    assert [a, b, c, d, e, f, g] + [h] == [a, b, c, d, e, f, g, h];
    JoinSnoc([a, b, c, d, e, f, g], h, '\t');
    assert [a, b, c, d, e, f, g, h] + [i] == [a, b, c, d, e, f, g, h, i];
    JoinSnoc([a, b, c, d, e, f, g, h], i, '\t');
  }

  /** A record while it is being rebuilt. `ac`, `an`, `dp`, `gq` and `pass`
      are carried but never given a value by the rewriter. */
  class Variant {
    var chr: string
    var pos: nat
    var id: string
    var ref: string
    var alt: string
    var qual: string
    var filter: string
    var info: string
    var format: string
    var ac: int
    var an: int
    var gt: seq<string>
    var dp: seq<string>
    var gq: seq<string>
    var pass: bool

    /** A fresh record: empty text columns and no per-sample values. */
    constructor ()
      ensures chr == "" && id == "" && ref == "" && alt == ""
      ensures qual == "" && filter == "" && info == "" && format == ""
      ensures gt == [] && dp == [] && gq == []
    {
      chr, id, ref, alt := "", "", "", "";
      qual, filter, info, format := "", "", "", "";
      gt, dp, gq := [], [], [];
    }

    /** `GetBasicInfo`: stores the nine leading columns, one field at a time. */
    method GetBasicInfo(lead: LeadingFields)
      modifies this`chr, this`pos, this`id, this`ref, this`alt
      modifies this`qual, this`filter, this`info, this`format
      ensures chr == lead.chr && pos == lead.pos && id == lead.id
      ensures ref == lead.ref && alt == lead.alt && qual == lead.qual
      ensures filter == lead.filter && info == lead.info && format == lead.format
    {
      chr := lead.chr;
      pos := lead.pos;
      id := lead.id;
      ref := lead.ref;
      alt := lead.alt;
      qual := lead.qual;
      filter := lead.filter;
      info := lead.info;
      format := lead.format;
    }

    /** `ExtractGT`: reads the rest of the line tab by tab, skips the first
        (empty) token and appends the genotype of every later one to `gt`.
        It always answers false and touches nothing but `gt` and the stream. */
    method ExtractGT(ss: Stream) returns (allMissing: bool)
      requires ss.Valid()
      modifies this`gt, ss`pos
      ensures ss.Valid() && ss.pos == |ss.text|
      ensures gt == old(gt) + SampleGenotypes(old(ss.Remaining()))
      ensures !allMissing
    {
      ghost var all := Tokens(ss.Remaining(), '\t');
      ghost var seen: seq<string> := [];
      var first := true;
      var ok, token := ss.Getline('\t');
      while ok
        invariant ss.Valid()
        invariant all == seen + (if ok then [token] + Tokens(ss.Remaining(), '\t') else [])
        invariant !ok ==> ss.pos == |ss.text|
        invariant first == (seen == [])
        invariant gt == old(gt) + GenotypesOf(SampleColumns(seen))
        decreases |ss.text| - ss.pos + (if ok then 1 else 0)
      {
        if first {
          first := false;
        } else {
          SampleGenotypesStep(seen, token);
          var g := GenotypeOf(token);
          gt := gt + [g];
        }
        AppendAssoc(seen, [token], Tokens(ss.Remaining(), '\t'));
        seen := seen + [token];
        ok, token := ss.Getline('\t');
      }
      assert seen + [] == seen;
      allMissing := false;
    }

    /** The output columns: the eight leading values, FORMAT, then one
        genotype per sample. */
    function Columns(): seq<string>
      reads this
    {
      [chr, NatToString(pos), id, ref, alt, qual, filter, info, format] + gt
    }

    /** `PrintVariant`: the record as one tab-separated line (the line end
        written after it is not part of the text). */
    method PrintVariant() returns (line: string)
      ensures line == Join(Columns(), '\t')
    {
      JoinNine(chr, NatToString(pos), id, ref, alt, qual, filter, info, format);
      assert Columns()[..9] == [chr, NatToString(pos), id, ref, alt, qual, filter, info, format];
      line := chr + "\t" + NatToString(pos) + "\t" + id + "\t" + ref + "\t" + alt
        + "\t" + qual + "\t" + filter + "\t" + info + "\t" + format;
      var i := 0;
      while i < |gt|
        invariant i <= |gt|
        invariant line == Join(Columns()[..9 + i], '\t')
      {
        JoinSnoc(Columns()[..9 + i], gt[i], '\t');
        assert Columns()[..9 + i + 1] == Columns()[..9 + i] + [gt[i]];
        line := line + "\t" + gt[i];
        i := i + 1;
      }
      assert Columns()[..9 + |gt|] == Columns();
    }
  }
}
