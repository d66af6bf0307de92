/** The INFO filter: keep only the `;`-separated INFO entries that name a
    variant flag (`VFLAGS_`) or an allele-balance value (`ABHet_`), and tell
    whether some kept flag is switched off (`=0`). */
module InfoFilter {
  import opened Text

  const FlagKey := "VFLAGS_"
  const HetKey := "ABHet_"

  /** An INFO entry the filter keeps. */
  predicate IsKept(token: string)
  {
    Contains(token, FlagKey) || Contains(token, HetKey)
  }

  /** The text after the first `=`; a token without `=` yields itself,
      because `find` gives `npos` and `npos + 1` wraps round to 0. */
  function ValueOf(token: string): string
  {
    var eq := IndexOf(token, '=');
    if eq < |token| then token[eq + 1..] else token
  }

  /** A variant flag whose value is exactly `0`. */
  predicate IsZeroFlag(token: string)
  {
    Contains(token, FlagKey) && ValueOf(token) == "0"
  }

  predicate HasZeroFlag(tokens: seq<string>)
  {
    exists k :: 0 <= k < |tokens| && IsZeroFlag(tokens[k])
  }

  /** The kept entries, in their original order. */
  function KeptTokens(tokens: seq<string>): (kept: seq<string>)
    ensures forall k :: 0 <= k < |kept| ==> IsKept(kept[k])
  {
    if tokens == [] then []
    else (if IsKept(tokens[0]) then [tokens[0]] else []) + KeptTokens(tokens[1..])
  }

  /** The new INFO text: the kept entries joined by single `;`s. */
  function FilteredInfo(info: string): string
  {
    Join(KeptTokens(Tokens(info, ';')), ';')
  }

  /** The verdict: some kept variant flag has value `0`. */
  predicate Verdict(info: string)
  {
    HasZeroFlag(KeptTokens(Tokens(info, ';')))
  }

  /** The kept entries are the given entries that pass the keep test. */
  lemma {:induction false} KeptTokensMembers(tokens: seq<string>)
    ensures forall t :: t in KeptTokens(tokens) <==> t in tokens && IsKept(t)
    decreases |tokens|
  {
    if tokens != [] {
      KeptTokensMembers(tokens[1..]);
      assert tokens == [tokens[0]] + tokens[1..];
    }
  }

  /** Filtering commutes with concatenation, so the kept entries keep their
      relative order. */
  lemma {:induction false} KeptTokensAppend(a: seq<string>, b: seq<string>)
    ensures KeptTokens(a + b) == KeptTokens(a) + KeptTokens(b)
    decreases |a|
  {
    if a == [] {
      assert a + b == b;
    } else {
      assert (a + b)[0] == a[0];
      assert (a + b)[1..] == a[1..] + b;
      KeptTokensAppend(a[1..], b);
    }
  }

  /** Filtering entries that are all kept changes nothing. */
  lemma {:induction false} KeptTokensAllKept(tokens: seq<string>)
    requires forall k :: 0 <= k < |tokens| ==> IsKept(tokens[k])
    ensures KeptTokens(tokens) == tokens
    decreases |tokens|
  {
    if tokens != [] {
      KeptTokensAllKept(tokens[1..]);
    }
  }

  /** A kept entry is never empty. */
  lemma KeptNonEmpty(token: string)
    requires IsKept(token)
    ensures token != ""
  {
  }

  lemma HasZeroFlagAppend(ts: seq<string>, t: string)
    ensures HasZeroFlag(ts + [t]) <==> HasZeroFlag(ts) || IsZeroFlag(t)
  {
    if HasZeroFlag(ts) {
      var k :| 0 <= k < |ts| && IsZeroFlag(ts[k]);
      assert (ts + [t])[k] == ts[k];
    }
    if IsZeroFlag(t) {
      assert (ts + [t])[|ts|] == t;
    }
    if HasZeroFlag(ts + [t]) {
      var k :| 0 <= k < |ts + [t]| && IsZeroFlag((ts + [t])[k]);
      if k < |ts| {
        assert IsZeroFlag(ts[k]);
      }
    }
  }

  /** Reading the new INFO back entry by entry gives exactly the kept entries
      of the old one, in order: no entry is added, none is lost, and there is
      no empty entry before, between or after them. When some entry is kept,
      even a plain split on `;` gives back exactly those entries, so the new
      INFO has no leading or trailing `;`. */
  lemma FilteredInfoTokens(info: string)
    ensures Tokens(FilteredInfo(info), ';') == KeptTokens(Tokens(info, ';'))
    ensures KeptTokens(Tokens(info, ';')) != [] ==>
      Split(FilteredInfo(info), ';') == KeptTokens(Tokens(info, ';'))
  {
    var kept := KeptTokens(Tokens(info, ';'));
    KeptTokensMembers(Tokens(info, ';'));
    if kept != [] {
      KeptNonEmpty(kept[|kept| - 1]);
      assert forall k :: 0 <= k < |kept| ==> ';' !in kept[k] by {
        forall k | 0 <= k < |kept| ensures ';' !in kept[k] {
          assert kept[k] in Tokens(info, ';');
        }
      }
      TokensJoin(kept, ';');
      SplitJoin(kept, ';');
    }
  }

  /** The new INFO is empty exactly when no entry is kept. */
  lemma FilteredInfoEmpty(info: string)
    ensures FilteredInfo(info) == "" <==> forall t :: t in Tokens(info, ';') ==> !IsKept(t)
  {
    var kept := KeptTokens(Tokens(info, ';'));
    KeptTokensMembers(Tokens(info, ';'));
    forall k | 0 <= k < |kept| ensures kept[k] != "" {
      KeptNonEmpty(kept[k]);
    }
    JoinEmpty(kept, ';');
    if kept != [] {
      assert kept[0] in Tokens(info, ';');
    }
  }

  /** Only the variant flags decide the verdict: it holds exactly when some
      entry of the old INFO is a variant flag with value `0`, whatever the
      `ABHet_` entries say. */
  lemma VerdictFromFlags(info: string)
    ensures Verdict(info) <==> exists t :: t in Tokens(info, ';') && IsZeroFlag(t)
  {
    var kept := KeptTokens(Tokens(info, ';'));
    KeptTokensMembers(Tokens(info, ';'));
    if Verdict(info) {
      var k :| 0 <= k < |kept| && IsZeroFlag(kept[k]);
      assert kept[k] in Tokens(info, ';');
    }
    if exists t :: t in Tokens(info, ';') && IsZeroFlag(t) {
      var t :| t in Tokens(info, ';') && IsZeroFlag(t);
      assert t in kept;
      var k :| 0 <= k < |kept| && kept[k] == t;
    }
  }

  /** A variant flag has value `0` exactly when it ends in `=0` and that `=`
      is its first. */
  lemma ZeroFlagShape(token: string)
    requires Contains(token, FlagKey)
    ensures IsZeroFlag(token) <==>
      |token| >= 2 && token[|token| - 2..] == "=0" && '=' !in token[..|token| - 2]
  {
    ContainsLength(token, FlagKey);
    var eq := IndexOf(token, '=');
    var n := |token|;
    if n >= 2 && token[n - 2..] == "=0" && '=' !in token[..n - 2] {
      assert token[n - 2] == '=';
      IndexOfUnique(token, '=', n - 2);
    }
  }

  /** Filtering twice is filtering once: the new INFO and the verdict are
      both unchanged by a second pass. */
  lemma FilterIdempotent(info: string)
    ensures FilteredInfo(FilteredInfo(info)) == FilteredInfo(info)
    ensures Verdict(FilteredInfo(info)) == Verdict(info)
  {
    var kept := KeptTokens(Tokens(info, ';'));
    FilteredInfoTokens(info);
    KeptTokensAllKept(kept);
  }

  /** One more entry read: what it does to the joined text and to the
      verdict built from the entries read so far. */
  lemma KeepStep(seen: seq<string>, token: string)
    ensures Join(KeptTokens(seen + [token]), ';') ==
      if !IsKept(token) then Join(KeptTokens(seen), ';')
      else if Join(KeptTokens(seen), ';') != "" then Join(KeptTokens(seen), ';') + [';'] + token
      else token
    ensures HasZeroFlag(KeptTokens(seen + [token])) ==
      (HasZeroFlag(KeptTokens(seen)) || (IsKept(token) && IsZeroFlag(token)))
  {
    KeptTokensAppend(seen, [token]);
    var kept := KeptTokens(seen);
    assert KeptTokens([token]) == if IsKept(token) then [token] else [];
    if IsKept(token) {
      forall k | 0 <= k < |kept| ensures kept[k] != "" {
        KeptNonEmpty(kept[k]);
      }
      JoinEmpty(kept, ';');
      if kept != [] {
        JoinSnoc(kept, token, ';');
      }
      HasZeroFlagAppend(kept, token);
    } else {
      assert kept + [] == kept;
    }
  }

  /** `KeepFlag`: rewrites INFO to the kept entries and returns the verdict. */
  method KeepFlag(info: string) returns (newInfo: string, good: bool)
    ensures newInfo == FilteredInfo(info)
    ensures good == Verdict(info)
  {
    var ss := new Stream(info);
    var tmp := "";
    var allFlagged := true;
    ghost var seen: seq<string> := [];
    var ok, token := ss.Getline(';');
    while ok
      invariant ss.Valid() && ss.text == info
      invariant Tokens(info, ';') == seen + (if ok then [token] + Tokens(ss.Remaining(), ';') else [])
      invariant tmp == Join(KeptTokens(seen), ';')
      invariant allFlagged == !HasZeroFlag(KeptTokens(seen))
      decreases |info| - ss.pos + (if ok then 1 else 0)
    {
      KeepStep(seen, token);
      if Contains(token, FlagKey) || Contains(token, HetKey) {
        if tmp != "" {
          tmp := tmp + [';'] + token;
        } else {
          tmp := token;
        }
        if Contains(token, FlagKey) {
          if ValueOf(token) == "0" {
            allFlagged := false;
          }
        }
      }
      AppendAssoc(seen, [token], Tokens(ss.Remaining(), ';'));
      seen := seen + [token];
      ok, token := ss.Getline(';');
    }
    assert seen + [] == seen;
    newInfo := tmp;
    good := !allFlagged;
  }
}
