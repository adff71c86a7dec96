/** The compiled-in emoticon table (`smileyPairList`) and the image markup the
    codec writes for an entry. */
module Emoticons {
  import opened Strings

  /** One row of the table: an image, named by the file name of its icon, and
      its textual aliases; the first alias is the canonical one. */
  datatype Entry = Entry(name: string, aliases: seq<string>) {
    /** The image resource path of the row. */
    function Path(): (r: string) {
      Icon(name)
    }
  }

  /** Every image of the table lives under this resource directory and ends
      in ".png"; `Icon("smile")` is ":/icons/emoticons/emotion_smile.png". */
  const IconDir: string := ":/icons/emoticons/emotion_"

  function Icon(name: string): (r: string) {
    IconDir + name + ".png"
  }

  /** `smileyPairList`, in the order the codec walks it. */
  const Table: seq<Entry> := [
    Entry("smile",    [":)", ":-)", ":o)"]),
    Entry("sad",      [":(", ":-("]),
    Entry("grin",     [":D", ":-D"]),
    Entry("cool",     ["8)", "8-)"]),
    Entry("suprised", [":O", ":-O"]),
    Entry("wink",     [";)", ";-)"]),
    Entry("cry",      [";(", ";-("]),
    Entry("sweat",    ["(:|"]),
    Entry("kiss",     [":*", ":-*"]),
    Entry("tongue",   [":P", ":-P"]),
    Entry("doubt",    [":^)", ":^-)"]),
    Entry("love",     ["(inlove)"]),
    Entry("evilgrin", ["]:)", "]:-)"]),
    Entry("angel",    ["O:)", "O:-)", "o:)", "o:-)", "(angel)"])
  ]

  const TagOpen: string := "<img src=\""
  const TagClose: string := "\" />"

  /** The markup `<img src="PATH" />` written for an image path. */
  function Tag(path: string): (r: string) {
    TagOpen + path + TagClose
  }

  /** `a` is one of the aliases of the rows `es`. */
  ghost predicate AliasOf(es: seq<Entry>, a: string) {
    exists k, j :: 0 <= k < |es| && 0 <= j < |es[k].aliases| && es[k].aliases[j] == a
  }

  /** `a` is one of the aliases of the table. */
  ghost predicate IsAlias(a: string) {
    AliasOf(Table, a)
  }

  /** Characters that end every alias and never appear in an image path or in
      the fixed parts of a tag. */
  predicate IsSpecial(c: char) {
    c == '(' || c == ')' || c == '*' || c == ';' || c == ']' || c == 'D' || c == 'O' || c == 'P' || c == '|'
  }

  /** The characters image paths are written with. */
  predicate IsPathChar(c: char) {
    ('a' <= c <= 'z') || c == ':' || c == '/' || c == '_' || c == '.'
  }

  /** What every alias of the table looks like: two to eight characters, the
      last one special, and no angle bracket. */
  predicate AliasShape(a: string) {
    2 <= |a| <= 8 && IsSpecial(a[|a| - 1]) && '<' !in a && '>' !in a
  }

  predicate PathShape(p: string) {
    forall c :: c in p ==> IsPathChar(c)
  }

  /** No alias list of the table is empty, so `desmile` never takes its
      "remove the tag" branch with this table. */
  lemma AliasListsNonEmpty()
    ensures forall k :: 0 <= k < |Table| ==> Table[k].aliases != []
  {
  }

  lemma IconInjective(x: string, y: string)
    requires Icon(x) == Icon(y)
    ensures x == y
  {
    assert x == Icon(x)[|IconDir|..|Icon(x)| - 4];
    assert y == Icon(y)[|IconDir|..|Icon(y)| - 4];
  }

  /** The icon names, and so the image paths, are pairwise distinct: an image
      path identifies its row. */
  lemma PathsDistinct()
    ensures forall j, k :: 0 <= j < |Table| && 0 <= k < |Table| && j != k ==> Table[j].Path() != Table[k].Path()
  {
    assert forall j, k :: 0 <= j < |Table| && 0 <= k < |Table| && j != k ==> Table[j].name != Table[k].name;
    forall j, k | 0 <= j < |Table| && 0 <= k < |Table| && Table[j].Path() == Table[k].Path()
      ensures j == k
    {
      IconInjective(Table[j].name, Table[k].name);
    }
  }

  /** A row whose path and aliases have the shapes described above. */
  ghost predicate WellShaped(e: Entry) {
    PathShape(e.Path()) && forall a :: a in e.aliases ==> AliasShape(a)
  }

  /** Every alias of the table has the shape `AliasShape` describes. */
  lemma AliasesWellShaped()
    ensures forall k, j :: 0 <= k < |Table| && 0 <= j < |Table[k].aliases| ==> AliasShape(Table[k].aliases[j])
  {
  }

  predicate NameShape(name: string) {
    forall c :: c in name ==> 'a' <= c <= 'z'
  }

  lemma IconWellShaped(name: string)
    requires NameShape(name)
    ensures PathShape(Icon(name))
  {
    assert PathShape(IconDir);
    assert PathShape(".png");
  }

  /** Every image path of the table is written with path characters only. */
  lemma PathsWellShaped()
    ensures forall k :: 0 <= k < |Table| ==> PathShape(Table[k].Path())
  {
    assert forall k :: 0 <= k < |Table| ==> NameShape(Table[k].name);
    forall k | 0 <= k < |Table| ensures PathShape(Table[k].Path()) {
      IconWellShaped(Table[k].name);
    }
  }

  predicate SpecialFree(s: string) {
    forall i :: 0 <= i < |s| ==> !IsSpecial(s[i])
  }

  /** Neither the fixed parts of a tag nor a well-shaped path hold a special
      character. */
  lemma TagSpecialFree(p: string)
    requires PathShape(p)
    ensures SpecialFree(Tag(p))
  {
    forall i | 0 <= i < |Tag(p)| ensures !IsSpecial(Tag(p)[i]) {
      if i < |TagOpen| {
        assert Tag(p)[i] == TagOpen[i];
      } else if i < |TagOpen| + |p| {
        assert Tag(p)[i] == p[i - |TagOpen|];
        assert p[i - |TagOpen|] in p;
      } else {
        assert Tag(p)[i] == TagClose[i - |TagOpen| - |p|];
      }
    }
  }

  /** An alias cannot occur in a text without special characters: its last
      character would have to be one. */
  lemma NoAliasInSpecialFree(s: string, a: string)
    requires AliasShape(a) && SpecialFree(s)
    ensures !Occurs(s, a)
  {
  }

  /** One arbitrary character in front of a text without special characters
      does not let an alias occur either, because an alias is at least two
      characters long and ends in a special character. */
  lemma NoAliasAfterOneChar(x: char, s: string, a: string)
    requires AliasShape(a) && SpecialFree(s)
    ensures !Occurs([x] + s, a)
  {
  }

  /** The tag for a well-shaped path can be inserted into any text without
      creating an occurrence of a well-shaped alias. */
  lemma TagInert(p: string, a: string)
    requires PathShape(p) && AliasShape(a)
    ensures Inert(Tag(p), a)
  {
    TagSpecialFree(p);
    NoAliasInSpecialFree(Tag(p), a);
    assert Tag(p)[0] == '<';
    assert Tag(p)[|Tag(p)| - 1] == '>';
  }

  /** Every row of the table is well shaped. */
  lemma TableWellShaped()
    ensures forall k :: 0 <= k < |Table| ==> WellShaped(Table[k])
    ensures forall a :: IsAlias(a) ==> AliasShape(a)
  {
    AliasesWellShaped();
    PathsWellShaped();
    forall k | 0 <= k < |Table| ensures WellShaped(Table[k]) {
      forall a | a in Table[k].aliases ensures AliasShape(a) {
        var j :| 0 <= j < |Table[k].aliases| && Table[k].aliases[j] == a;
      }
    }
  }
}
