/** The markup half of `EmoticonMenu::desmile`: a loop that, from a counter
    `i` upwards, finds the first image tag at or after `i`, looks its image
    path up in the table and replaces every copy of that tag by the row's
    first alias. Only the canonical tag `<img src="PATH" />` that `smile`
    writes is recognised. */
module DesmileCodec {
  import opened Strings
  import opened Emoticons

  datatype Option<T> = None | Some(value: T)

  /** A tag found in the text: where it starts, its whole text and the image
      path between the quotes. */
  datatype TagMatch = TagMatch(start: nat, whole: string, src: string)

  predicate IsQuote(c: char) {
    c == '"' || c == '\''
  }

  predicate QuoteFree(x: string) {
    forall i :: 0 <= i < |x| ==> !IsQuote(x[i])
  }

  /** The first quote character at or after `q`: where the lazily matched
      attribute value ends. */
  function QuoteFrom(s: string, q: nat): (r: Option<nat>)
    decreases |s| - q
    ensures r.Some? ==> q <= r.value < |s| && IsQuote(s[r.value])
    ensures r.Some? ==> forall j :: q <= j < r.value ==> !IsQuote(s[j])
    ensures r.None? ==> forall j :: q <= j < |s| ==> !IsQuote(s[j])
  {
    if q >= |s| then None
    else if IsQuote(s[q]) then Some(q)
    else QuoteFrom(s, q + 1)
  }

  /** The image path of the canonical tag that starts at `p`, if one does. */
  function TagAt(s: string, p: nat): (r: Option<string>)
    ensures r.Some? ==> QuoteFree(r.value) && OccursAt(s, Tag(r.value), p)
  {
    var q := p + |TagOpen|;
    if q <= |s| && s[p..q] == TagOpen then
      match QuoteFrom(s, q)
      case None => None
      case Some(e) =>
        if OccursAt(s, TagClose, e) then
          assert s[p..e + |TagClose|] == s[p..q] + s[q..e] + s[e..e + |TagClose|];
          Some(s[q..e])
        else None
    else None
  }

  /** Every canonical tag with a quote-free path is recognised, and its path
      is read back exactly. */
  lemma TagAtFindsTag(s: string, p: nat, x: string)
    requires QuoteFree(x) && OccursAt(s, Tag(x), p)
    ensures TagAt(s, p) == Some(x)
  {
    var q := p + |TagOpen|;
    var e := q + |x|;
    assert s[p..p + |Tag(x)|] == Tag(x);
    assert s[p..q] == Tag(x)[..|TagOpen|] == TagOpen;
    assert s[q..e] == Tag(x)[|TagOpen|..|TagOpen| + |x|] == x;
    assert s[e..e + |TagClose|] == Tag(x)[|TagOpen| + |x|..] == TagClose;
    assert s[e] == '"';
    forall j | q <= j < e ensures !IsQuote(s[j]) {
      assert s[j] == x[j - q];
    }
    assert QuoteFrom(s, q) == Some(e);
  }

  /** The first canonical tag that starts at or after `i`: the regular
      expression search `re.match(htmlText, i)`. */
  function FindTag(s: string, i: nat): (r: Option<TagMatch>)
    decreases |s| - i
    ensures r.Some? ==> i <= r.value.start < |s| && TagAt(s, r.value.start) == Some(r.value.src)
    ensures r.Some? ==> r.value.whole == Tag(r.value.src) && OccursAt(s, r.value.whole, r.value.start)
    ensures r.Some? ==> forall p :: i <= p < r.value.start ==> TagAt(s, p).None?
    ensures r.None? ==> forall p :: i <= p < |s| ==> TagAt(s, p).None?
  {
    if i >= |s| then None
    else match TagAt(s, i)
      case Some(x) => Some(TagMatch(i, Tag(x), x))
      case None => FindTag(s, i + 1)
  }

  /** The rows' shape the loop relies on: every alias is at most eight
      characters long, no alias list is empty, and the image paths are
      pairwise distinct. The table has it (`TableShaped`). */
  predicate Shaped(es: seq<Entry>) {
    (forall k, j :: 0 <= k < |es| && 0 <= j < |es[k].aliases| ==> |es[k].aliases[j]| <= 8)
    && (forall k :: 0 <= k < |es| ==> es[k].aliases != [])
    && (forall j, k :: 0 <= j < |es| && 0 <= k < |es| && j != k ==> es[j].Path() != es[k].Path())
  }

  lemma TableShaped()
    ensures Shaped(Table)
  {
    AliasesWellShaped();
    AliasListsNonEmpty();
    PathsDistinct();
  }

  /** The first row of `es` at or after `k` whose image path is `src`: the
      inner loop over the table with its `break`. */
  function LookupFrom(es: seq<Entry>, src: string, k: nat): (r: Option<nat>)
    decreases |es| - k
    ensures r.Some? ==> k <= r.value < |es| && es[r.value].Path() == src
    ensures r.Some? ==> forall j :: k <= j < r.value ==> es[j].Path() != src
    ensures r.None? ==> forall j :: k <= j < |es| ==> es[j].Path() != src
  {
    if k >= |es| then None
    else if es[k].Path() == src then Some(k)
    else LookupFrom(es, src, k + 1)
  }

  /** The row the inner loop stops at is the one `LookupFrom` finds. */
  lemma LookupHit(es: seq<Entry>, src: string, k: nat)
    requires k < |es| && es[k].Path() == src
    requires forall j :: 0 <= j < k ==> es[j].Path() != src
    ensures LookupFrom(es, src, 0) == Some(k)
  {
    var r := LookupFrom(es, src, 0);
  }

  /** What a found tag is replaced by: the first alias, or nothing at all
      (`remove`) when the alias list is empty. */
  function Replacement(aliases: seq<string>): (r: string) {
    if aliases == [] then "" else aliases[0]
  }

  /** One pass of the loop body for the match `m`, with the rows `es`. */
  function DesmileStep(t: string, m: TagMatch, es: seq<Entry>): (r: string)
    requires m.whole == Tag(m.src)
  {
    match LookupFrom(es, m.src, 0)
    case None => t
    case Some(k) => ReplaceAll(t, m.whole, Replacement(es[k].aliases))
  }

  /** No step makes the text longer: a replacement is at most eight
      characters, a tag at least fourteen. */
  lemma DesmileStepNoLonger(t: string, m: TagMatch, es: seq<Entry>)
    requires m.whole == Tag(m.src) && Shaped(es)
    ensures |DesmileStep(t, m, es)| <= |t|
  {
    match LookupFrom(es, m.src, 0)
    case None =>
    case Some(k) =>
      assert |Replacement(es[k].aliases)| < |m.whole|;
      ReplaceAllNoLonger(t, m.whole, Replacement(es[k].aliases));
  }

  /** A step whose path belongs to row `k` replaces every copy of the tag by
      that row's first alias: the paths are distinct, so no earlier row can
      claim the path, and the alias list is never empty. */
  lemma DesmileStepKnown(t: string, m: TagMatch, es: seq<Entry>, k: nat)
    requires m.whole == Tag(m.src) && Shaped(es)
    requires k < |es| && es[k].Path() == m.src
    ensures DesmileStep(t, m, es) == ReplaceAll(t, m.whole, es[k].aliases[0])
  {
    assert LookupFrom(es, m.src, 0) == Some(k);
  }

  /** A step whose path belongs to no row leaves the text as it is. */
  lemma DesmileStepUnknown(t: string, m: TagMatch, es: seq<Entry>)
    requires m.whole == Tag(m.src)
    requires forall k :: 0 <= k < |es| ==> es[k].Path() != m.src
    ensures DesmileStep(t, m, es) == t
  {
  }

  /** What the loop leaves behind when it is entered with counter `i`. */
  function Desmiled(t: string, i: nat, es: seq<Entry>): (r: string)
    requires Shaped(es)
    decreases |t| - i
  {
    match FindTag(t, i)
    case None => t
    case Some(m) =>
      DesmileStepNoLonger(t, m, es);
      Desmiled(DesmileStep(t, m, es), i + 1, es)
  }

  /** The inner loop of `desmile`: the rows are tried in order and the
      first whose image path equals `src` stops the search (`break`). */
  method FindRow(es: seq<Entry>, src: string) returns (r: Option<nat>)
    ensures r == LookupFrom(es, src, 0)
  {
    var k := 0;
    while k < |es|
      invariant k <= |es|
      invariant forall j :: 0 <= j < k ==> es[j].Path() != src
    {
      if es[k].Path() == src {
        LookupHit(es, src, k);
        return Some(k);
      }
      k := k + 1;
    }
    return None;
  }

  /** The substitution loop of `EmoticonMenu::desmile`, before the text is
      handed to the HTML-to-plain-text conversion. */
  method Desmile(html: string) returns (text: string)
    ensures Shaped(Table) && text == Desmiled(html, 0, Table)
    ensures !KnownTagFrom(text, 0, Table)
  {
    TableShaped();
    text := html;
    var i: nat := 0;
    var m := FindTag(text, i);
    while m.Some?
      invariant m == FindTag(text, i)
      invariant Desmiled(text, i, Table) == Desmiled(html, 0, Table)
      decreases |text| - i
    {
      var found := m.value;
      ghost var before := text;
      var row := FindRow(Table, found.src);
      if row.Some? {
        text := ReplaceAll(text, found.whole, Replacement(Table[row.value].aliases));
      }
      assert text == DesmileStep(before, found, Table);
      DesmileStepNoLonger(before, found, Table);
      i := i + 1;
      m := FindTag(text, i);
    }
    DesmiledClears(html);
  }

  // ---- Properties of the whole loop ----

  /** The loop never makes the text longer. */
  lemma {:induction false} DesmiledNoLonger(t: string, i: nat, es: seq<Entry>)
    requires Shaped(es)
    ensures |Desmiled(t, i, es)| <= |t|
    decreases |t| - i
  {
    match FindTag(t, i)
    case None =>
    case Some(m) =>
      DesmileStepNoLonger(t, m, es);
      DesmiledNoLonger(DesmileStep(t, m, es), i + 1, es);
  }

  /** Text without a '<' holds no tag, and the loop leaves it unchanged. */
  lemma DesmiledPlainText(t: string, i: nat, es: seq<Entry>)
    requires '<' !in t && Shaped(es)
    ensures Desmiled(t, i, es) == t
  {
    NoTagWithoutLt(t, i);
  }

  /** Every tag starts with '<'. */
  lemma TagStartsWithLt(t: string, p: nat)
    ensures TagAt(t, p).Some? ==> p < |t| && t[p] == '<'
  {
    match TagAt(t, p)
    case None =>
    case Some(x) =>
      assert t[p] == Tag(x)[0];
  }

  /** So a search in a text without '<' finds nothing. */
  lemma NoTagWithoutLt(t: string, i: nat)
    requires '<' !in t
    ensures FindTag(t, i).None?
  {
    match FindTag(t, i)
    case None =>
    case Some(m) =>
      TagStartsWithLt(t, m.start);
  }

  /** A tag whose path is the path of a row of `es` starts at `p`. */
  ghost predicate KnownTagAt(t: string, p: nat, es: seq<Entry>) {
    TagAt(t, p).Some? && LookupFrom(es, TagAt(t, p).value, 0).Some?
  }

  /** A tag whose path is the path of a row of `es` starts at or after `i`. */
  ghost predicate KnownTagFrom(t: string, i: nat, es: seq<Entry>) {
    exists p :: i <= p < |t| && TagAt(t, p).Some? && LookupFrom(es, TagAt(t, p).value, 0).Some?
  }

  /** A search that finds nothing means no known tag lies ahead. */
  lemma NoMatchNoKnownTag(t: string, i: nat, es: seq<Entry>)
    ensures FindTag(t, i).None? ==> !KnownTagFrom(t, i, es)
  {
  }

  /** A match whose path is in `es` is a known tag. */
  lemma KnownMatch(t: string, i: nat, es: seq<Entry>, m: TagMatch)
    requires FindTag(t, i) == Some(m)
    ensures LookupFrom(es, m.src, 0).Some? ==> KnownTagFrom(t, i, es)
  {
    assert TagAt(t, m.start).value == m.src;
    if LookupFrom(es, m.src, 0).Some? {
      assert KnownTagAt(t, m.start, es);
    }
  }

  /** The step for a match whose path is in `es` makes the text strictly
      shorter. */
  lemma KnownStepShrinks(t: string, i: nat, es: seq<Entry>, m: TagMatch)
    requires Shaped(es) && FindTag(t, i) == Some(m) && LookupFrom(es, m.src, 0).Some?
    ensures |DesmileStep(t, m, es)| < |t|
  {
    var k := LookupFrom(es, m.src, 0).value;
    assert |Replacement(es[k].aliases)| < |m.whole|;
    assert OccursAt(t, m.whole, m.start);
    ReplaceAllShrinks(t, m.whole, Replacement(es[k].aliases));
  }

  /** A match whose path is not in `es` is not a known tag, so the known tags
      ahead of `i` are those ahead of `i + 1`. */
  lemma UnknownMatchSkipped(t: string, i: nat, es: seq<Entry>, m: TagMatch)
    requires FindTag(t, i) == Some(m) && LookupFrom(es, m.src, 0).None?
    ensures KnownTagFrom(t, i, es) <==> KnownTagFrom(t, i + 1, es)
  {
    if KnownTagFrom(t, i, es) {
      var p :| i <= p < |t| && TagAt(t, p).Some? && LookupFrom(es, TagAt(t, p).value, 0).Some?;
      assert p != i;
    }
  }

  /** One turn of the loop, unfolded. */
  lemma DesmiledUnfold(t: string, i: nat, es: seq<Entry>, m: TagMatch)
    requires Shaped(es) && FindTag(t, i) == Some(m)
    ensures Desmiled(t, i, es) == Desmiled(DesmileStep(t, m, es), i + 1, es)
  {
  }

  /** With a known tag ahead, the loop makes the text strictly shorter. */
  lemma {:induction false} DesmiledShrinks(t: string, i: nat, es: seq<Entry>)
    requires Shaped(es) && KnownTagFrom(t, i, es)
    ensures |Desmiled(t, i, es)| < |t|
    decreases |t| - i
  {
    NoMatchNoKnownTag(t, i, es);
    match FindTag(t, i)
    case Some(m) =>
      DesmiledUnfold(t, i, es, m);
      if LookupFrom(es, m.src, 0).Some? {
        KnownStepShrinks(t, i, es, m);
        DesmiledNoLonger(DesmileStep(t, m, es), i + 1, es);
      } else {
        UnknownMatchSkipped(t, i, es, m);
        DesmiledShrinks(t, i + 1, es);
      }
  }

  /** Without a known tag ahead, the loop leaves the text as it is. */
  lemma {:induction false} DesmiledUnchanged(t: string, i: nat, es: seq<Entry>)
    requires Shaped(es) && !KnownTagFrom(t, i, es)
    ensures Desmiled(t, i, es) == t
    decreases |t| - i
  {
    match FindTag(t, i)
    case None =>
    case Some(m) =>
      KnownMatch(t, i, es, m);
      UnknownMatchSkipped(t, i, es, m);
      assert DesmileStep(t, m, es) == t;
      DesmiledUnfold(t, i, es, m);
      DesmiledUnchanged(t, i + 1, es);
  }

  /** The loop changes the text exactly when a tag whose path is in `es`
      starts at or after `i`; then the text gets strictly shorter. */
  lemma DesmiledUnchangedIff(t: string, i: nat, es: seq<Entry>)
    requires Shaped(es)
    ensures Desmiled(t, i, es) == t <==> !KnownTagFrom(t, i, es)
    ensures KnownTagFrom(t, i, es) ==> |Desmiled(t, i, es)| < |t|
  {
    if KnownTagFrom(t, i, es) {
      DesmiledShrinks(t, i, es);
    } else {
      DesmiledUnchanged(t, i, es);
    }
  }

  // ---- No known tag survives the loop ----

  /** Rows whose image paths and aliases have the table's shapes. */
  ghost predicate RowsWellShaped(es: seq<Entry>) {
    forall k :: 0 <= k < |es| ==> WellShaped(es[k])
  }

  /** A tag that starts no later than an inserted alias ends before it: a
      tag cannot start inside the alias (no '<' there), cannot end inside it
      (no '>' there), and cannot cover all of it (its last character is
      special, and no tag holds a special character). */
  lemma TagBeforeAlias(x: string, a: string, y: string, q: nat, path: string)
    requires AliasShape(a) && PathShape(path)
    requires q <= |x| && OccursAt(x + a + y, Tag(path), q)
    ensures q + |Tag(path)| <= |x|
  {
    var s, w := x + a + y, Tag(path);
    var e := |x| + |a| - 1;
    TagSpecialFree(path);
    assert s[q..q + |w|] == w;
    assert s[e] == a[|a| - 1];
    assert e >= q + |w|;
    assert w[|w| - 1] == '>';
  }

  /** A known tag that starts no later than an inserted alias is a known
      tag of the text the alias was spliced into. */
  lemma KnownTagInPrefix(t: string, x: string, a: string, y: string, q: nat, es: seq<Entry>)
    requires RowsWellShaped(es) && AliasShape(a)
    requires q <= |x| <= |t| && t[..|x|] == x
    ensures KnownTagAt(x + a + y, q, es) ==> q < |x| && KnownTagAt(t, q, es)
  {
    var s := x + a + y;
    if KnownTagAt(s, q, es) {
      var path := TagAt(s, q).value;
      var j := LookupFrom(es, path, 0).value;
      assert WellShaped(es[j]);
      TagBeforeAlias(x, a, y, q, path);
      var n := |Tag(path)|;
      assert s[q..q + n] == x[q..q + n] == t[q..q + n];
      TagAtFindsTag(t, q, path);
    }
  }

  /** No known tag starts before `n`. */
  ghost predicate NoKnownTagBefore(t: string, n: nat, es: seq<Entry>) {
    forall p :: 0 <= p < n ==> !KnownTagAt(t, p, es)
  }

  /** No tag at all starts between `i` and the match the search finds. */
  lemma ClearUpToMatch(t: string, i: nat, es: seq<Entry>, m: TagMatch)
    requires FindTag(t, i) == Some(m) && NoKnownTagBefore(t, i, es)
    ensures NoKnownTagBefore(t, m.start, es)
  {
    forall p | i <= p < m.start ensures !KnownTagAt(t, p, es) {
      assert TagAt(t, p).None?;
    }
  }

  /** After a copied prefix of length `n` without known tags, the inserted
      alias keeps every known tag away from positions up to `n`: such a tag
      would lie wholly in the prefix. */
  lemma NoKnownTagBeforeAlias(t: string, n: nat, es: seq<Entry>, a: string, y: string)
    requires RowsWellShaped(es) && AliasShape(a)
    requires n <= |t| && NoKnownTagBefore(t, n, es)
    ensures NoKnownTagBefore(t[..n] + a + y, n + 1, es)
  {
    forall q | 0 <= q < n + 1 ensures !KnownTagAt(t[..n] + a + y, q, es) {
      KnownTagInPrefix(t, t[..n], a, y, q, es);
    }
  }

  /** The tag of a known match does not occur before the match, where no
      known tag starts. */
  lemma FirstCopyAtMatch(t: string, es: seq<Entry>, m: TagMatch)
    requires TagAt(t, m.start) == Some(m.src) && m.whole == Tag(m.src)
    requires LookupFrom(es, m.src, 0).Some? && NoKnownTagBefore(t, m.start, es)
    ensures OccursAt(t, m.whole, m.start)
    ensures forall q :: 0 <= q < m.start ==> !OccursAt(t, m.whole, q)
  {
    forall q | 0 <= q < m.start ensures !OccursAt(t, m.whole, q) {
      if OccursAt(t, m.whole, q) {
        TagAtFindsTag(t, q, m.src);
        assert KnownTagAt(t, q, es);
      }
    }
  }

  /** The first alias of a row of well-shaped rows is well shaped. */
  lemma FirstAliasShaped(es: seq<Entry>, k: nat)
    requires RowsWellShaped(es) && k < |es| && es[k].aliases != []
    ensures AliasShape(es[k].aliases[0])
  {
    assert WellShaped(es[k]);
    assert es[k].aliases[0] in es[k].aliases;
  }

  /** Replacing a pattern whose first occurrence is at `n`, where no known
      tag starts before `n`, by a well-shaped alias leaves no known tag at
      or before `n`. */
  lemma KnownStepClears(t: string, es: seq<Entry>, w: string, a: string, n: nat)
    requires RowsWellShaped(es) && AliasShape(a)
    requires w != [] && OccursAt(t, w, n) && forall q :: 0 <= q < n ==> !OccursAt(t, w, q)
    requires NoKnownTagBefore(t, n, es)
    ensures NoKnownTagBefore(ReplaceAll(t, w, a), n + 1, es)
  {
    ReplaceAllAtFirst(t, w, a, n);
    NoKnownTagBeforeAlias(t, n, es, a, ReplaceAll(t[n + |w|..], w, a));
  }

  /** An unknown match adds the counter's position to the positions known to
      hold no known tag. */
  lemma UnknownStepClears(t: string, i: nat, es: seq<Entry>, m: TagMatch)
    requires FindTag(t, i) == Some(m) && LookupFrom(es, m.src, 0).None?
    requires NoKnownTagBefore(t, i, es)
    ensures NoKnownTagBefore(t, i + 1, es)
  {
    if m.start != i {
      assert TagAt(t, i).None?;
    }
  }

  /** With no known tag before `i` and no tag at all from `i` on, the text
      holds no known tag. */
  lemma NoMatchClears(t: string, i: nat, es: seq<Entry>)
    requires FindTag(t, i).None? && NoKnownTagBefore(t, i, es)
    ensures !KnownTagFrom(t, 0, es)
  {
    forall p | 0 <= p < |t| ensures !(TagAt(t, p).Some? && LookupFrom(es, TagAt(t, p).value, 0).Some?) {
      if p >= i {
        assert TagAt(t, p).None?;
      } else {
        assert !KnownTagAt(t, p, es);
      }
    }
  }

  /** One turn of the loop keeps the positions up to the counter free of
      known tags, and does not make the text longer. */
  lemma StepClears(t: string, i: nat, es: seq<Entry>, m: TagMatch)
    requires Shaped(es) && RowsWellShaped(es) && NoKnownTagBefore(t, i, es)
    requires FindTag(t, i) == Some(m)
    ensures NoKnownTagBefore(DesmileStep(t, m, es), i + 1, es)
    ensures |DesmileStep(t, m, es)| <= |t|
  {
    DesmileStepNoLonger(t, m, es);
    match LookupFrom(es, m.src, 0)
    case None =>
      UnknownStepClears(t, i, es, m);
    case Some(k) =>
      DesmileStepKnown(t, m, es, k);
      ClearUpToMatch(t, i, es, m);
      FirstCopyAtMatch(t, es, m);
      FirstAliasShaped(es, k);
      KnownStepClears(t, es, m.whole, es[k].aliases[0], m.start);
  }

  /** Entered with no known tag before `i`, the loop leaves no known tag
      anywhere. */
  lemma {:induction false} DesmiledClearsFrom(t: string, i: nat, es: seq<Entry>)
    requires Shaped(es) && RowsWellShaped(es) && NoKnownTagBefore(t, i, es)
    ensures !KnownTagFrom(Desmiled(t, i, es), 0, es)
    decreases |t| - i
  {
    match FindTag(t, i)
    case None =>
      NoMatchClears(t, i, es);
    case Some(m) =>
      DesmiledUnfold(t, i, es, m);
      StepClears(t, i, es, m);
      DesmiledClearsFrom(DesmileStep(t, m, es), i + 1, es);
  }

  /** `desmile` replaces every tag of a table image: none is left in its
      output. */
  lemma DesmiledClears(t: string)
    ensures Shaped(Table)
    ensures !KnownTagFrom(Desmiled(t, 0, Table), 0, Table)
  {
    TableShaped();
    TableWellShaped();
    DesmiledClearsFrom(t, 0, Table);
  }

  /** Markup round trip: the single tag `smile` writes for row `k`, with
      plain text around it, comes back as the row's first alias. */
  lemma DesmileSingleTag(u: string, k: nat, v: string)
    requires k < |Table| && '<' !in u && '<' !in v
    ensures Shaped(Table)
    ensures Desmiled(u + Tag(Table[k].Path()) + v, 0, Table) == u + Table[k].aliases[0] + v
  {
    TableShaped();
    PathsWellShaped();
    PathQuoteFree(Table[k].Path());
    AliasesWellShaped();
    assert AliasShape(Table[k].aliases[0]);
    SingleTagRoundTrip(u, Table[k].Path(), Table[k].aliases[0], v, Table, k);
  }

  /** An image path holds no quote character. */
  lemma PathQuoteFree(x: string)
    requires PathShape(x)
    ensures QuoteFree(x)
  {
    forall j | 0 <= j < |x| ensures !IsQuote(x[j]) {
      assert x[j] in x;
    }
  }

  /** In `u + Tag(x) + v` with no '<' in `u`, the search from the start
      finds `Tag(x)`. */
  lemma FindTagAfterPlain(u: string, x: string, v: string)
    requires QuoteFree(x) && '<' !in u
    ensures FindTag(u + Tag(x) + v, 0) == Some(TagMatch(|u|, Tag(x), x))
  {
    var w := Tag(x);
    var t := u + w + v;
    assert OccursAt(t, w, |u|) by {
      assert t[|u|..|u| + |w|] == w;
    }
    TagAtFindsTag(t, |u|, x);
    forall p | 0 <= p < |u| ensures TagAt(t, p).None? {
      assert t[p] == u[p];
      TagStartsWithLt(t, p);
    }
    FindTagSkips(t, 0, |u|);
  }

  /** Replacing every copy of `Tag(x)` in `u + Tag(x) + v`, with no '<' in
      `u` or `v`, touches that one copy only. */
  lemma ReplaceSingleTag(u: string, x: string, a: string, v: string)
    requires '<' !in u && '<' !in v
    ensures ReplaceAll(u + Tag(x) + v, Tag(x), a) == u + a + v
  {
    var w := Tag(x);
    assert w[0] == '<';
    NoOccurrenceWithoutChar(v, w, '<');
    NoStartInPrefix(u, w + v, w);
    assert u + (w + v) == u + w + v;
    ReplaceAllSingle(u, w, v, a);
  }

  /** The tag of row `k` on its own comes back as the row's first alias. */
  lemma DesmileLoneTag(k: nat)
    requires k < |Table|
    ensures Shaped(Table)
    ensures Desmiled(Tag(Table[k].Path()), 0, Table) == Table[k].aliases[0]
  {
    TableShaped();
    PathsWellShaped();
    PathQuoteFree(Table[k].Path());
    AliasesWellShaped();
    assert AliasShape(Table[k].aliases[0]);
    LoneTagRoundTrip(Table[k].Path(), Table[k].aliases[0], Table, k);
  }

  /** `DesmileLoneTag` for any rows `es`. */
  lemma LoneTagRoundTrip(x: string, a: string, es: seq<Entry>, k: nat)
    requires Shaped(es) && k < |es| && es[k].Path() == x && es[k].aliases[0] == a
    requires QuoteFree(x) && '<' !in a
    ensures Desmiled(Tag(x), 0, es) == a
  {
    SingleTagRoundTrip("", x, a, "", es, k);
    Unpadded(Tag(x));
    Unpadded(a);
  }

  lemma Unpadded(s: string)
    ensures "" + s + "" == s
  {
  }

  /** `DesmileSingleTag` for any rows `es`. */
  lemma SingleTagRoundTrip(u: string, x: string, a: string, v: string, es: seq<Entry>, k: nat)
    requires Shaped(es) && k < |es| && es[k].Path() == x && es[k].aliases[0] == a
    requires QuoteFree(x) && '<' !in u && '<' !in v && '<' !in a
    ensures Desmiled(u + Tag(x) + v, 0, es) == u + a + v
  {
    var t := u + Tag(x) + v;
    var m := TagMatch(|u|, Tag(x), x);
    FindTagAfterPlain(u, x, v);
    DesmileStepKnown(t, m, es, k);
    ReplaceSingleTag(u, x, a, v);
    DesmiledPlainText(u + a + v, 1, es);
  }

  /** When no tag starts in `[i, p)`, the search from `i` is the search from
      `p`. */
  lemma {:induction false} FindTagSkips(t: string, i: nat, p: nat)
    requires i <= p <= |t|
    requires forall q :: i <= q < p ==> TagAt(t, q).None?
    ensures FindTag(t, i) == FindTag(t, p)
    decreases p - i
  {
    if i < p {
      FindTagSkips(t, i + 1, p);
    }
  }
}
