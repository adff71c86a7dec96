/** Concrete runs of `smile` that show how the order of the table decides
    which image an overlapping alias turns into. */
module SmileExamples {
  import opened Strings
  import opened Emoticons
  import opened SmileCodec
  import opened DesmileCodec

  /** The tag `smile` writes for row `k` of the table. */
  function TagOf(k: nat): (r: string)
    requires k < |Table|
  {
    Tag(Table[k].Path())
  }

  lemma TagOfSpecialFree(k: nat)
    requires k < |Table|
    ensures SpecialFree(TagOf(k))
  {
    PathsWellShaped();
    TagSpecialFree(Table[k].Path());
  }

  /** A text in which no alias of the table occurs holds no alias of any
      row from `k` on. */
  lemma LaterRowsAbsent(t: string, k: nat)
    requires forall a :: IsAlias(a) ==> !Occurs(t, a)
    ensures forall j, i :: k <= j < |Table| && 0 <= i < |Table[j].aliases| ==> !Occurs(t, Table[j].aliases[i])
  {
    forall j, i | k <= j < |Table| && 0 <= i < |Table[j].aliases| ensures !Occurs(t, Table[j].aliases[i]) {
      assert IsAlias(Table[j].aliases[i]);
    }
  }

  /** Once the first `k` rows have produced `t` and no alias is left in it,
      `t` is what `smile` returns. */
  lemma SmiledSettles(text: string, k: nat, t: string)
    requires k <= |Table|
    requires AllNonEmpty(Table[..k]) && SmileEntries(text, Table[..k]) == t
    requires forall a :: IsAlias(a) ==> !Occurs(t, a)
    ensures Smiled(text) == t
  {
    TableAliasesNonEmpty();
    LaterRowsAbsent(t, k);
    SmileEntriesSettle(text, Table, k, t);
  }

  /** The fold over a list of one alias, written out. */
  lemma SmileAliasesOne(text: string, path: string, al: seq<string>)
    requires |al| == 1 && NonEmpty(al)
    ensures SmileAliases(text, path, al) == ReplaceAll(text, al[0], Tag(path))
  {
    assert al[..0] == [];
  }

  /** The fold over a list of two aliases, written out. */
  lemma SmileAliasesTwo(text: string, path: string, al: seq<string>)
    requires |al| == 2 && NonEmpty(al)
    ensures SmileAliases(text, path, al) == ReplaceAll(ReplaceAll(text, al[0], Tag(path)), al[1], Tag(path))
  {
    assert al[..1][..0] == [] && al[..2] == al;
    assert SmileAliases(text, path, al[..1]) == ReplaceAll(text, al[0], Tag(path));
  }

  /** The fold over a list of three aliases, written out. */
  lemma SmileAliasesThree(text: string, path: string, al: seq<string>)
    requires |al| == 3 && NonEmpty(al)
    ensures SmileAliases(text, path, al)
         == ReplaceAll(ReplaceAll(ReplaceAll(text, al[0], Tag(path)), al[1], Tag(path)), al[2], Tag(path))
  {
    var r := Tag(path);
    assert al[..1][..0] == [] && al[..2][..1] == al[..1] && al[..3] == al;
    assert SmileAliases(text, path, al[..1]) == ReplaceAll(text, al[0], r);
    assert SmileAliases(text, path, al[..2]) == ReplaceAll(SmileAliases(text, path, al[..1]), al[1], r);
  }

  /** The result of the first row alone. */
  lemma FirstRow(text: string)
    ensures AllNonEmpty(Table[..1])
    ensures SmileEntries(text, Table[..1])
         == ReplaceAll(ReplaceAll(ReplaceAll(text, ":)", TagOf(0)), ":-)", TagOf(0)), ":o)", TagOf(0))
  {
    TableAliasesNonEmpty();
    SmileEntriesNext(text, Table, 0);
    assert Table[..0] == [];
    SmileAliasesThree(text, Table[0].Path(), Table[0].aliases);
  }

  /** ":)" (row 0) is rewritten before any other alias, so a character in
      front of it stays plain text. */
  lemma SmileCharBeforeSmiley(x: char)
    ensures Smiled([x] + ":)") == [x] + TagOf(0)
  {
    var text, t := [x] + ":)", [x] + TagOf(0);
    FirstRow(text);
    assert text == [x] + ":)" + "";
    assert !OccursAt(text, ":)", 0) by { assert text[1] == ':'; }
    ReplaceAllCopiesHead(x, ":)", ":)", TagOf(0));
    ReplaceAllAtFront(":)", "", TagOf(0));
    assert ReplaceAll(text, ":)", TagOf(0)) == t;
    TagOfSpecialFree(0);
    TableWellShaped();
    forall a | IsAlias(a) ensures !Occurs(t, a) {
      NoAliasAfterOneChar(x, TagOf(0), a);
    }
    assert IsAlias(":-)") by { assert Table[0].aliases[1] == ":-)"; }
    assert IsAlias(":o)") by { assert Table[0].aliases[2] == ":o)"; }
    ReplaceAllAbsent(t, ":-)", TagOf(0));
    ReplaceAllAbsent(t, ":o)", TagOf(0));
    SmiledSettles(text, 1, t);
  }

  /** The table's tie-break: the canonical aliases of the angel row ("O:)")
      and of the evil-grin row ("]:)") come out as their first character
      followed by the smile image, never as their own image. */
  lemma SmileAngelAndEvilGrin()
    ensures Smiled("O:)") == "O" + TagOf(0)
    ensures Smiled("]:)") == "]" + TagOf(0)
    ensures Smiled("O:)") != TagOf(13) && Smiled("]:)") != TagOf(12)
  {
    SmileCharBeforeSmiley('O');
    SmileCharBeforeSmiley(']');
    assert "O:)" == ['O'] + ":)" && "]:)" == [']'] + ":)";
    assert ("O" + TagOf(0))[0] != TagOf(13)[0];
    assert ("]" + TagOf(0))[0] != TagOf(12)[0];
  }

  /** Each alias of the first eleven rows holds ':', ';' or '8'. */
  lemma EarlyRowsMarked()
    ensures forall k, i :: 0 <= k < 11 && 0 <= i < |Table[k].aliases| ==>
      ':' in Table[k].aliases[i] || ';' in Table[k].aliases[i] || '8' in Table[k].aliases[i]
  {
  }

  /** "(inlove)" passes the first eleven rows untouched. */
  lemma InLoveEarlyRows()
    ensures AllNonEmpty(Table[..11]) && SmileEntries("(inlove)", Table[..11]) == "(inlove)"
  {
    var text := "(inlove)";
    TableAliasesNonEmpty();
    EarlyRowsMarked();
    forall a | AliasOf(Table[..11], a) ensures !Occurs(text, a) {
      var k, i :| 0 <= k < 11 && 0 <= i < |Table[..11][k].aliases| && Table[..11][k].aliases[i] == a;
      assert Table[k].aliases[i] == a;
      if ':' in a {
        NoOccurrenceWithoutChar(text, a, ':');
      } else if ';' in a {
        NoOccurrenceWithoutChar(text, a, ';');
      } else {
        NoOccurrenceWithoutChar(text, a, '8');
      }
    }
    SmileEntriesUnchanged(text, Table[..11]);
  }

  /** The love row's only alias, written out. */
  lemma LoveRowAliases(text: string)
    ensures NonEmpty(Table[11].aliases)
    ensures SmileAliases(text, Table[11].Path(), Table[11].aliases) == ReplaceAll(text, "(inlove)", TagOf(11))
  {
    TableAliasesNonEmpty();
    SmileAliasesOne(text, Table[11].Path(), Table[11].aliases);
  }

  /** The twelfth row turns "(inlove)" into the love image. */
  lemma InLoveRow()
    ensures AllNonEmpty(Table[..12]) && SmileEntries("(inlove)", Table[..12]) == TagOf(11)
  {
    TableAliasesNonEmpty();
    InLoveEarlyRows();
    SmileEntriesNext("(inlove)", Table, 11);
    LoveRowAliases("(inlove)");
    ReplaceAllAtFront("(inlove)", "", TagOf(11));
    assert "(inlove)" + "" == "(inlove)";
  }

  /** "(inlove)" becomes the love image: the earlier rows' aliases each hold
      ':', ';' or '8', and nothing after the love row matches the image. */
  lemma SmileInLove()
    ensures Smiled("(inlove)") == TagOf(11)
  {
    InLoveRow();
    TagOfSpecialFree(11);
    NoAliasIn(TagOf(11));
    SmiledSettles("(inlove)", 12, TagOf(11));
  }

  /** A text without special characters holds no alias. */
  lemma NoAliasIn(t: string)
    requires SpecialFree(t)
    ensures forall a :: IsAlias(a) ==> !Occurs(t, a)
  {
    TableWellShaped();
    forall a | IsAlias(a) ensures !Occurs(t, a) {
      NoAliasInSpecialFree(t, a);
    }
  }

  /** The first row leaves ":(:(" alone: each of its aliases holds ')'. */
  lemma TwoSadFirstRow()
    ensures AllNonEmpty(Table[..1]) && SmileEntries(":(:(", Table[..1]) == ":(:("
  {
    var text := ":(:(";
    FirstRow(text);
    NoOccurrenceWithoutChar(text, ":)", ')');
    NoOccurrenceWithoutChar(text, ":-)", ')');
    NoOccurrenceWithoutChar(text, ":o)", ')');
    ReplaceAllAbsent(text, ":)", TagOf(0));
    ReplaceAllAbsent(text, ":-)", TagOf(0));
    ReplaceAllAbsent(text, ":o)", TagOf(0));
  }

  /** Both copies of ":(" are replaced. */
  lemma TwoSadReplaced(r: string)
    ensures ReplaceAll(":(:(", ":(", r) == r + r
  {
    assert ":(:(" == ":(" + (":(" + "");
    ReplaceAllAtFront(":(", ":(" + "", r);
    ReplaceAllAtFront(":(", "", r);
  }

  /** The second row's two aliases, written out. */
  lemma SadRowAliases(text: string)
    ensures NonEmpty(Table[1].aliases)
    ensures SmileAliases(text, Table[1].Path(), Table[1].aliases)
         == ReplaceAll(ReplaceAll(text, ":(", TagOf(1)), ":-(", TagOf(1))
  {
    TableAliasesNonEmpty();
    SmileAliasesTwo(text, Table[1].Path(), Table[1].aliases);
  }

  /** Both copies of ":(" become the sad image, and ":-(" finds nothing in
      the result. */
  lemma TwoSadRewritten()
    ensures ReplaceAll(ReplaceAll(":(:(", ":(", TagOf(1)), ":-(", TagOf(1)) == TagOf(1) + TagOf(1)
  {
    var t := TagOf(1) + TagOf(1);
    TwoSadReplaced(TagOf(1));
    TagOfSpecialFree(1);
    assert SpecialFree(t);
    NoAliasInSpecialFree(t, ":-(");
    ReplaceAllAbsent(t, ":-(", TagOf(1));
  }

  /** The second row turns both copies of ":(" into the sad image. */
  lemma TwoSadSecondRow()
    ensures AllNonEmpty(Table[..2])
    ensures SmileEntries(":(:(", Table[..2]) == TagOf(1) + TagOf(1)
  {
    TableAliasesNonEmpty();
    TwoSadFirstRow();
    SmileEntriesNext(":(:(", Table, 1);
    SadRowAliases(":(:(");
    TwoSadRewritten();
  }

  /** Every occurrence is replaced, not only the first one. */
  lemma SmileTwoSad()
    ensures Smiled(":(:(") == TagOf(1) + TagOf(1)
  {
    var t := TagOf(1) + TagOf(1);
    TwoSadSecondRow();
    TagOfSpecialFree(1);
    assert SpecialFree(t);
    NoAliasIn(t);
    SmiledSettles(":(:(", 2, t);
  }

  /** A lone ":)" becomes the smile image. */
  lemma SmileSmiley()
    ensures Smiled(":)") == TagOf(0)
  {
    var t := TagOf(0);
    FirstRow(":)");
    assert ReplaceAll(":)", ":)", t) == t by {
      ReplaceAllAtFront(":)", "", t);
      assert ":)" + "" == ":)";
    }
    TagOfSpecialFree(0);
    NoAliasIn(t);
    assert IsAlias(":-)") by { assert Table[0].aliases[1] == ":-)"; }
    assert IsAlias(":o)") by { assert Table[0].aliases[2] == ":o)"; }
    ReplaceAllAbsent(t, ":-)", t);
    ReplaceAllAbsent(t, ":o)", t);
    assert SmileEntries(":)", Table[..1]) == t;
    SmiledSettles(":)", 1, t);
  }

  /** The markup step of `desmile` turns what `smile` makes of ":)" back into
      ":)". */
  lemma SmileThenDesmileSmiley()
    ensures Shaped(Table)
    ensures Desmiled(Smiled(":)"), 0, Table) == ":)"
  {
    SmileSmiley();
    DesmileLoneTag(0);
  }

  /** `smile` then the markup step of `desmile` gives "(inlove)" back. */
  lemma SmileThenDesmileInLove()
    ensures Shaped(Table)
    ensures Desmiled(Smiled("(inlove)"), 0, Table) == "(inlove)"
  {
    SmileInLove();
    DesmileLoneTag(11);
  }

  /** The one smiley of the sentence is replaced and the words around it
      are kept. */
  lemma SentenceReplaced(r: string)
    ensures ReplaceAll("hello :) world", ":)", r) == "hello " + r + " world"
  {
    SentenceParts();
    NoOccurrenceWithoutChar(" world", ":)", ':');
    NoStartInPrefix("hello ", ":)" + " world", ":)");
    ReplaceAllSingle("hello ", ":)", " world", r);
  }

  /** What the first row makes of the sentence. */
  lemma SentenceFirstRow()
    ensures AllNonEmpty(Table[..1])
    ensures SmileEntries("hello :) world", Table[..1]) == "hello " + TagOf(0) + " world"
  {
    var t := "hello " + TagOf(0) + " world";
    FirstRow("hello :) world");
    SentenceReplaced(TagOf(0));
    SentenceSpecialFree();
    NoAliasInSpecialFree(t, ":-)");
    NoAliasInSpecialFree(t, ":o)");
    ReplaceAllAbsent(t, ":-)", TagOf(0));
    ReplaceAllAbsent(t, ":o)", TagOf(0));
  }

  lemma SentenceSpecialFree()
    ensures SpecialFree("hello " + TagOf(0) + " world")
  {
    TagOfSpecialFree(0);
    assert SpecialFree("hello ") && SpecialFree(" world");
  }

  /** A plain sentence with one smiley in it. */
  lemma SmileSentence()
    ensures Smiled("hello :) world") == "hello " + TagOf(0) + " world"
  {
    SentenceFirstRow();
    SentenceSpecialFree();
    NoAliasIn("hello " + TagOf(0) + " world");
    SmiledSettles("hello :) world", 1, "hello " + TagOf(0) + " world");
  }

  lemma SentenceWordsPlain()
    ensures '<' !in "hello " && '<' !in " world"
  {
  }

  /** The sentence is its two words around the first alias of the first
      row, and neither word holds a ':'. */
  lemma SentenceParts()
    ensures "hello :) world" == "hello " + ":)" + " world"
    ensures "hello " + Table[0].aliases[0] + " world" == "hello :) world"
    ensures ':' !in "hello " && ':' !in " world"
  {
  }

  /** The markup step of `desmile` on the smiled sentence. */
  lemma DesmileSentenceMarkup()
    ensures Shaped(Table)
    ensures Desmiled("hello " + TagOf(0) + " world", 0, Table) == "hello " + Table[0].aliases[0] + " world"
  {
    SentenceWordsPlain();
    DesmileSingleTag("hello ", 0, " world");
  }

  /** `smile` then the markup step of `desmile` gives the sentence back. */
  lemma SmileThenDesmileSentence()
    ensures Shaped(Table)
    ensures Desmiled(Smiled("hello :) world"), 0, Table) == "hello :) world"
  {
    SmileSentence();
    DesmileSentenceMarkup();
    SentenceParts();
  }
}
