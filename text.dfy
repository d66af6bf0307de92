/** Character-level helpers of the VCF rewriter: searching a line, splitting it
    on a delimiter (both the plain split and the way repeated `std::getline`
    calls tokenise a stream), joining columns back, and the string stream the
    rewriter reads its lines through. */
module Text {

  /** Position of the first `c` in `s`, or `|s|` when `s` has none (the
      model of `std::string::find` returning `npos`). */
  function IndexOf(s: string, c: char): (i: nat)
    ensures i <= |s|
    ensures c !in s[..i]
    ensures i < |s| ==> s[i] == c
  {
    if s == [] then 0
    else if s[0] == c then 0
    else
      var j := IndexOf(s[1..], c);
      assert s[..j + 1] == [s[0]] + s[1..][..j];
      1 + j
  }

  /** The three properties of IndexOf pin it down. */
  lemma IndexOfUnique(s: string, c: char, k: nat)
    requires k <= |s| && c !in s[..k] && (k < |s| ==> s[k] == c)
    ensures IndexOf(s, c) == k
  {
  }

  /** The text before the first `c`, or all of `s` when it has no `c`. */
  function PrefixBefore(s: string, c: char): (r: string)
    ensures |r| <= |s| && r == s[..|r|]
    ensures c !in r
    ensures |r| == |s| || s[|r|] == c
  {
    s[..IndexOf(s, c)]
  }

  /** Whether `p` occurs in `s` (the model of `s.find(p) != npos`). */
  predicate Contains(s: string, p: string)
    decreases |s|
  {
    (|p| <= |s| && s[..|p|] == p) || (s != [] && Contains(s[1..], p))
  }

  /** `p` occurs in `s` starting at position `i`. */
  predicate OccursAt(s: string, p: string, i: int)
  {
    0 <= i && i + |p| <= |s| && s[i..i + |p|] == p
  }

  /** Contains means what `find` means: an occurrence at some position. */
  lemma {:induction false} ContainsAt(s: string, p: string)
    ensures Contains(s, p) <==> exists i :: OccursAt(s, p, i)
    decreases |s|
  {
    if |p| <= |s| && s[..|p|] == p {
      assert OccursAt(s, p, 0);
    } else if s != [] {
      ContainsAt(s[1..], p);
      if Contains(s[1..], p) {
        var i :| OccursAt(s[1..], p, i);
        assert s[i + 1..i + 1 + |p|] == s[1..][i..i + |p|];
        assert OccursAt(s, p, i + 1);
      }
      if exists i :: OccursAt(s, p, i) {
        var i :| OccursAt(s, p, i);
        assert i > 0;
        assert s[1..][i - 1..i - 1 + |p|] == s[i..i + |p|];
        assert OccursAt(s[1..], p, i - 1);
      }
    }
  }

  /** A string in which `p` occurs is at least as long as `p`. */
  lemma {:induction false} ContainsLength(s: string, p: string)
    requires Contains(s, p)
    ensures |p| <= |s|
    decreases |s|
  {
    if !(|p| <= |s| && s[..|p|] == p) {
      ContainsLength(s[1..], p);
    }
  }

  /** Every piece between delimiters, empty ones included: `n` delimiters give
      `n + 1` pieces. */
  function Split(s: string, d: char): (parts: seq<string>)
    ensures |parts| >= 1
    ensures forall k :: 0 <= k < |parts| ==> d !in parts[k]
    decreases |s|
  {
    var i := IndexOf(s, d);
    if i == |s| then [s] else [s[..i]] + Split(s[i + 1..], d)
  }

  /** The tokens that successive `std::getline(stream, token, d)` calls yield
      before one fails: like Split, but an empty piece after the last
      delimiter is never read, so `""` yields none and `"a;"` yields `["a"]`. */
  function Tokens(s: string, d: char): (ts: seq<string>)
    ensures forall k :: 0 <= k < |ts| ==> d !in ts[k]
    decreases |s|
  {
    if s == [] then []
    else
      var i := IndexOf(s, d);
      if i == |s| then [s] else [s[..i]] + Tokens(s[i + 1..], d)
  }

  /** The parts separated by single `d`s, with none before the first part or
      after the last. */
  function Join(parts: seq<string>, d: char): string
  {
    if parts == [] then ""
    else if |parts| == 1 then parts[0]
    else parts[0] + [d] + Join(parts[1..], d)
  }

  function DropEmptyLast(parts: seq<string>): (r: seq<string>)
    ensures r == parts || (parts != [] && parts[|parts| - 1] == "" && r == parts[..|parts| - 1])
  {
    if parts != [] && parts[|parts| - 1] == "" then parts[..|parts| - 1] else parts
  }

  /** Joining is appending one more part after a delimiter. */
  lemma {:induction false} JoinSnoc(parts: seq<string>, x: string, d: char)
    requires parts != []
    ensures Join(parts + [x], d) == Join(parts, d) + [d] + x
    decreases |parts|
  {
    if |parts| > 1 {
      assert (parts + [x])[1..] == parts[1..] + [x];
      JoinSnoc(parts[1..], x, d);
    }
  }

  /** Joining two non-empty runs of parts puts one delimiter between them. */
  lemma {:induction false} JoinAppend(xs: seq<string>, ys: seq<string>, d: char)
    requires xs != [] && ys != []
    ensures Join(xs + ys, d) == Join(xs, d) + [d] + Join(ys, d)
    decreases |xs|
  {
    if |xs| == 1 {
      assert (xs + ys)[1..] == ys;
    } else {
      assert (xs + ys)[1..] == xs[1..] + ys;
      JoinAppend(xs[1..], ys, d);
    }
  }

  /** Splitting loses nothing: joining the pieces rebuilds the text. */
  lemma {:induction false} JoinSplit(s: string, d: char)
    ensures Join(Split(s, d), d) == s
    decreases |s|
  {
    var i := IndexOf(s, d);
    if i < |s| {
      JoinSplit(s[i + 1..], d);
      assert s == s[..i] + [d] + s[i + 1..];
    }
  }

  /** Joining delimiter-free parts and splitting again gives the parts back. */
  lemma {:induction false} SplitJoin(parts: seq<string>, d: char)
    requires parts != []
    requires forall k :: 0 <= k < |parts| ==> d !in parts[k]
    ensures Split(Join(parts, d), d) == parts
    decreases |parts|
  {
    var s := Join(parts, d);
    if |parts| == 1 {
      IndexOfUnique(s, d, |s|);
    } else {
      var rest := Join(parts[1..], d);
      assert s == parts[0] + [d] + rest;
      assert s[..|parts[0]|] == parts[0];
      IndexOfUnique(s, d, |parts[0]|);
      assert s[|parts[0]| + 1..] == rest;
      SplitJoin(parts[1..], d);
    }
  }

  /** The getline tokens are the split pieces minus an empty last piece. */
  lemma {:induction false} TokensSplit(s: string, d: char)
    ensures Tokens(s, d) == DropEmptyLast(Split(s, d))
    decreases |s|
  {
    var i := IndexOf(s, d);
    if s != [] && i < |s| {
      var tail := s[i + 1..];
      TokensSplit(tail, d);
      var parts := Split(tail, d);
      assert Split(s, d) == [s[..i]] + parts;
      if parts[|parts| - 1] == "" {
        assert ([s[..i]] + parts)[..|parts|] == [s[..i]] + parts[..|parts| - 1];
      }
    }
  }

  /** Joining delimiter-free parts and reading them back with getline gives
      the parts, except that an empty last part is not read. */
  lemma TokensJoin(parts: seq<string>, d: char)
    requires parts != []
    requires forall k :: 0 <= k < |parts| ==> d !in parts[k]
    ensures Tokens(Join(parts, d), d) == DropEmptyLast(parts)
  {
    TokensSplit(Join(parts, d), d);
    SplitJoin(parts, d);
  }

  /** Parts that are all non-empty join to the empty text only when there are
      none. */
  lemma JoinEmpty(parts: seq<string>, d: char)
    requires forall k :: 0 <= k < |parts| ==> parts[k] != ""
    ensures Join(parts, d) == "" <==> parts == []
  {
  }

  /** A character of a joined text is the delimiter or comes from a part. */
  lemma {:induction false} JoinChars(parts: seq<string>, d: char, c: char)
    requires c in Join(parts, d) && c != d
    ensures exists k :: 0 <= k < |parts| && c in parts[k]
    decreases |parts|
  {
    if |parts| > 1 {
      if c !in parts[0] {
        JoinChars(parts[1..], d, c);
        var k :| 0 <= k < |parts[1..]| && c in parts[1..][k];
        assert c in parts[k + 1];
      } else {
        assert c in parts[0];
      }
    }
  }

  /** A character of a split piece comes from the split text. */
  lemma {:induction false} SplitChars(s: string, d: char, k: nat, c: char)
    requires k < |Split(s, d)| && c in Split(s, d)[k]
    ensures c in s
    decreases |s|
  {
    var i := IndexOf(s, d);
    if i < |s| && k > 0 {
      SplitChars(s[i + 1..], d, k - 1, c);
    }
  }

  /** One getline step: from position `p`, the next token runs up to the
      first `d` at or after `p`, and reading resumes after that `d`. */
  lemma TokensStep(s: string, p: nat, j: nat, d: char)
    requires p < |s| && p <= j <= |s|
    requires d !in s[p..j] && (j < |s| ==> s[j] == d)
    ensures Tokens(s[p..], d) == [s[p..j]] + Tokens(s[if j < |s| then j + 1 else j..], d)
  {
    var rest := s[p..];
    assert rest[..j - p] == s[p..j];
    IndexOfUnique(rest, d, j - p);
    if j < |s| {
      assert rest[j - p + 1..] == s[j + 1..];
    } else {
      assert rest == s[p..j];
    }
  }

  lemma AppendAssoc<T>(a: seq<T>, b: seq<T>, c: seq<T>)
    ensures a + b + c == a + (b + c)
  {
  }

  /** A `std::stringstream` over a fixed text: the read position only moves
      forward. */
  class Stream {
    const text: string
    var pos: nat

    predicate Valid()
      reads this
    {
      pos <= |text|
    }

    /** What has not been read yet. */
    function Remaining(): string
      reads this
      requires Valid()
    {
      text[pos..]
    }

    constructor (s: string)
      ensures Valid() && text == s && pos == 0
    {
      text := s;
      pos := 0;
    }

    /** `std::getline(stream, token, d)`: reads up to the next `d` or the end,
        consumes the `d`, and fails only when nothing at all is left. */
    method Getline(d: char) returns (ok: bool, token: string)
      requires Valid()
      modifies this`pos
      ensures Valid()
      ensures ok == (old(pos) < |text|)
      ensures ok ==> old(pos) < pos
      ensures !ok ==> pos == old(pos)
      ensures ok ==> d !in token
      ensures Tokens(old(Remaining()), d) == (if ok then [token] + Tokens(Remaining(), d) else [])
    {
      if pos == |text| {
        return false, "";
      }
      var j := pos;
      while j < |text| && text[j] != d
        invariant pos <= j <= |text|
        invariant d !in text[pos..j]
      {
        j := j + 1;
      }
      TokensStep(text, pos, j, d);
      token := text[pos..j];
      pos := if j < |text| then j + 1 else j;
      ok := true;
    }
  }
}
