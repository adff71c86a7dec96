/** `EmoticonMenu::smile`: every alias of the table, entry by entry and alias
    by alias in table order, is replaced everywhere in the text by the image
    tag of its entry. */
module SmileCodec {
  import opened Strings
  import opened Emoticons

  /** The aliases are the patterns handed to `ReplaceAll`, so none is empty. */
  predicate NonEmpty(aliases: seq<string>) {
    forall i :: 0 <= i < |aliases| ==> aliases[i] != []
  }

  predicate AllNonEmpty(es: seq<Entry>) {
    forall k :: 0 <= k < |es| ==> NonEmpty(es[k].aliases)
  }

  /** The text after the inner loop has rewritten `aliases`, in list order,
      into the tag of `path`: a left fold of `ReplaceAll`. */
  function SmileAliases(text: string, path: string, aliases: seq<string>): (r: string)
    requires NonEmpty(aliases)
    decreases |aliases|
  {
    if aliases == [] then text
    else ReplaceAll(SmileAliases(text, path, aliases[..|aliases| - 1]), aliases[|aliases| - 1], Tag(path))
  }

  /** The text after the outer loop has processed the entries `es`, in order:
      a left fold of `SmileAliases`. */
  function SmileEntries(text: string, es: seq<Entry>): (r: string)
    requires AllNonEmpty(es)
    decreases |es|
  {
    if es == [] then text
    else SmileAliases(SmileEntries(text, es[..|es| - 1]), es[|es| - 1].Path(), es[|es| - 1].aliases)
  }

  lemma TableAliasesNonEmpty()
    ensures AllNonEmpty(Table)
  {
    AliasesWellShaped();
  }

  /** What `smile` returns for `text`. */
  function Smiled(text: string): (r: string) {
    TableAliasesNonEmpty();
    SmileEntries(text, Table)
  }

  /** `EmoticonMenu::smile`: the nested loops over the table and over each
      entry's aliases, rewriting `r` in place. */
  method Smile(text: string) returns (r: string)
    ensures r == Smiled(text)
  {
    TableAliasesNonEmpty();
    r := text;
    for k := 0 to |Table|
      invariant r == SmileEntries(text, Table[..k])
    {
      var entry := Table[k];
      for j := 0 to |entry.aliases|
        invariant r == SmileAliases(SmileEntries(text, Table[..k]), entry.Path(), entry.aliases[..j])
      {
        SmileAliasesNext(SmileEntries(text, Table[..k]), entry.Path(), entry.aliases, j);
        r := ReplaceAll(r, entry.aliases[j], Tag(entry.Path()));
      }
      assert entry.aliases[..|entry.aliases|] == entry.aliases;
      SmileEntriesNext(text, Table, k);
    }
    assert Table[..|Table|] == Table;
  }

  /** The first `j + 1` aliases are the first `j` followed by alias `j`. */
  lemma SmileAliasesNext(text: string, path: string, aliases: seq<string>, j: nat)
    requires j < |aliases| && NonEmpty(aliases)
    ensures SmileAliases(text, path, aliases[..j + 1])
         == ReplaceAll(SmileAliases(text, path, aliases[..j]), aliases[j], Tag(path))
  {
    assert aliases[..j + 1][..j] == aliases[..j];
  }

  // ---- Nothing changes when no alias occurs ----

  lemma {:induction false} SmileAliasesUnchanged(text: string, path: string, aliases: seq<string>)
    requires NonEmpty(aliases)
    requires forall i :: 0 <= i < |aliases| ==> !Occurs(text, aliases[i])
    ensures SmileAliases(text, path, aliases) == text
    decreases |aliases|
  {
    if aliases != [] {
      SmileAliasesUnchanged(text, path, aliases[..|aliases| - 1]);
      ReplaceAllAbsent(text, aliases[|aliases| - 1], Tag(path));
    }
  }

  lemma {:induction false} SmileEntriesUnchanged(text: string, es: seq<Entry>)
    requires AllNonEmpty(es)
    requires forall a :: AliasOf(es, a) ==> !Occurs(text, a)
    ensures SmileEntries(text, es) == text
    decreases |es|
  {
    if es != [] {
      var n := |es| - 1;
      forall a | AliasOf(es[..n], a) ensures !Occurs(text, a) {
        var k, i :| 0 <= k < n && 0 <= i < |es[..n][k].aliases| && es[..n][k].aliases[i] == a;
        assert es[k].aliases[i] == a;
      }
      SmileEntriesUnchanged(text, es[..n]);
      forall i | 0 <= i < |es[n].aliases| ensures !Occurs(text, es[n].aliases[i]) {
        assert AliasOf(es, es[n].aliases[i]);
      }
      SmileAliasesUnchanged(text, es[n].Path(), es[n].aliases);
    }
  }

  /** `smile` returns its input unchanged when no alias of the table occurs
      in it. */
  lemma SmileWithoutAliasIsIdentity(text: string)
    requires forall a :: IsAlias(a) ==> !Occurs(text, a)
    ensures Smiled(text) == text
  {
    TableAliasesNonEmpty();
    SmileEntriesUnchanged(text, Table);
  }

  // ---- Every occurrence is replaced and no new one appears ----

  lemma {:induction false} SmileAliasesClears(text: string, path: string, aliases: seq<string>, b: string)
    requires PathShape(path) && AliasShape(b)
    requires forall i :: 0 <= i < |aliases| ==> AliasShape(aliases[i])
    requires b in aliases || !Occurs(text, b)
    ensures NonEmpty(aliases)
    ensures !Occurs(SmileAliases(text, path, aliases), b)
    decreases |aliases|
  {
    if aliases != [] {
      var n := |aliases| - 1;
      assert aliases == aliases[..n] + [aliases[n]];
      TagInert(path, b);
      if b != aliases[n] {
        SmileAliasesClears(text, path, aliases[..n], b);
      }
      ReplaceAllLeavesNoOccurrence(SmileAliases(text, path, aliases[..n]), aliases[n], Tag(path), b);
    }
  }

  lemma ShapedNonEmpty(es: seq<Entry>)
    requires forall k :: 0 <= k < |es| ==> WellShaped(es[k])
    ensures AllNonEmpty(es)
  {
    forall k, i | 0 <= k < |es| && 0 <= i < |es[k].aliases| ensures es[k].aliases[i] != [] {
      assert es[k].aliases[i] in es[k].aliases;
    }
  }

  lemma {:induction false} SmileEntriesClears(text: string, es: seq<Entry>, b: string)
    requires forall k :: 0 <= k < |es| ==> WellShaped(es[k])
    requires AliasShape(b)
    requires AliasOf(es, b) || !Occurs(text, b)
    ensures AllNonEmpty(es)
    ensures !Occurs(SmileEntries(text, es), b)
    decreases |es|
  {
    if es != [] {
      var n := |es| - 1;
      var last := es[n];
      assert WellShaped(last);
      assert forall i :: 0 <= i < |last.aliases| ==> last.aliases[i] in last.aliases;
      ShapedNonEmpty(es[..n]);
      if b !in last.aliases {
        if AliasOf(es, b) {
          var k, i :| 0 <= k < |es| && 0 <= i < |es[k].aliases| && es[k].aliases[i] == b;
          assert k < n;
          assert es[..n][k].aliases[i] == b;
        }
        SmileEntriesClears(text, es[..n], b);
      }
      SmileAliasesClears(SmileEntries(text, es[..n]), last.Path(), last.aliases, b);
    }
  }

  /** After `smile` no alias of the table occurs anywhere in the text: every
      occurrence of every alias has been replaced, and the inserted tags never
      form a new one. */
  lemma SmiledHasNoAlias(text: string)
    ensures forall a :: IsAlias(a) ==> !Occurs(Smiled(text), a)
  {
    TableWellShaped();
    forall a | IsAlias(a) ensures !Occurs(Smiled(text), a) {
      SmileEntriesClears(text, Table, a);
    }
  }

  /** `smile` leaves a text unchanged exactly when no alias occurs in it. */
  lemma SmiledFixedPointIff(text: string)
    ensures Smiled(text) == text <==> forall a :: IsAlias(a) ==> !Occurs(text, a)
  {
    SmiledHasNoAlias(text);
    if forall a :: IsAlias(a) ==> !Occurs(text, a) {
      SmileWithoutAliasIsIdentity(text);
    }
  }

  /** Smiling twice is smiling once. */
  lemma SmileIdempotent(text: string)
    ensures Smiled(Smiled(text)) == Smiled(text)
  {
    SmiledHasNoAlias(text);
    SmileWithoutAliasIsIdentity(Smiled(text));
  }

  // ---- Folding over a split table ----

  /** Running the entries `xs` and then `ys` is running `xs + ys`. */
  lemma {:induction false} SmileEntriesAppend(text: string, xs: seq<Entry>, ys: seq<Entry>)
    requires AllNonEmpty(xs) && AllNonEmpty(ys)
    ensures AllNonEmpty(xs + ys)
    ensures SmileEntries(text, xs + ys) == SmileEntries(SmileEntries(text, xs), ys)
    decreases |ys|
  {
    if ys == [] {
      assert xs + ys == xs;
    } else {
      var n := |ys| - 1;
      assert (xs + ys)[..|xs + ys| - 1] == xs + ys[..n];
      SmileEntriesAppend(text, xs, ys[..n]);
    }
  }

  /** Once the first `k` entries have turned `text` into `t` and no alias of a
      later entry occurs in `t`, the later entries change nothing. */
  lemma SmileEntriesSettle(text: string, es: seq<Entry>, k: nat, t: string)
    requires k <= |es| && AllNonEmpty(es)
    requires SmileEntries(text, es[..k]) == t
    requires forall j, i :: k <= j < |es| && 0 <= i < |es[j].aliases| ==> !Occurs(t, es[j].aliases[i])
    ensures SmileEntries(text, es) == t
  {
    assert es == es[..k] + es[k..];
    SmileEntriesAppend(text, es[..k], es[k..]);
    SuffixAliasesAbsent(t, es, k);
    SmileEntriesUnchanged(t, es[k..]);
  }

  /** The aliases of the entries from `k` on are those of `es[k..]`. */
  lemma SuffixAliasesAbsent(t: string, es: seq<Entry>, k: nat)
    requires k <= |es|
    requires forall j, i :: k <= j < |es| && 0 <= i < |es[j].aliases| ==> !Occurs(t, es[j].aliases[i])
    ensures forall a :: AliasOf(es[k..], a) ==> !Occurs(t, a)
  {
    forall a | AliasOf(es[k..], a) ensures !Occurs(t, a) {
      var j, i :| 0 <= j < |es[k..]| && 0 <= i < |es[k..][j].aliases| && es[k..][j].aliases[i] == a;
      assert es[k + j].aliases[i] == a;
    }
  }

  /** The first `k + 1` entries are the first `k` followed by entry `k`. */
  lemma SmileEntriesNext(text: string, es: seq<Entry>, k: nat)
    requires k < |es| && AllNonEmpty(es)
    ensures SmileEntries(text, es[..k + 1])
         == SmileAliases(SmileEntries(text, es[..k]), es[k].Path(), es[k].aliases)
  {
    assert es[..k + 1][..k] == es[..k];
  }
}
