/** The process-wide smiley hash behind `EmoticonMenu::getSmileyHash`: one
    map from image path to alias list, which every menu construction seeds
    with the smile entry. */
module SmileyHashes {
  import opened Emoticons

  /** The hash object, a map updated in place. */
  class SmileyHash {
    var entries: map<string, seq<string>>

    /** The static hash starts out empty. */
    constructor()
      ensures entries == map[]
    {
      entries := map[];
    }

    /** `QHash::insert`: the key now maps to `value`, replacing any earlier
        value; every other key keeps its value. */
    method Insert(key: string, value: seq<string>)
      modifies this
      ensures entries == old(entries)[key := value]
    {
      entries := entries[key := value];
    }
  }

  const SmilePath: string := ":/icons/emoticons/emotion_smile.png"
  const SmileSeed: seq<string> := [":)", ":-)", ":o)"]

  /** The hash after one seeding insert. */
  function Seeded(m: map<string, seq<string>>): (r: map<string, seq<string>>)
    ensures SmilePath in r && r[SmilePath] == SmileSeed
    ensures forall key :: key in m && key != SmilePath ==> key in r && r[key] == m[key]
    ensures r.Keys == m.Keys + {SmilePath}
  {
    m[SmilePath := SmileSeed]
  }

  /** The insert the menu constructor performs on the shared hash. */
  method SeedSmileyHash(hash: SmileyHash)
    modifies hash
    ensures hash.entries == Seeded(old(hash.entries))
  {
    hash.Insert(SmilePath, SmileSeed);
  }

  /** The hash after `n` menu constructions. */
  function SeededTimes(m: map<string, seq<string>>, n: nat): (r: map<string, seq<string>>) {
    if n == 0 then m else Seeded(SeededTimes(m, n - 1))
  }

  /** Seeding twice is seeding once. */
  lemma SeededIdempotent(m: map<string, seq<string>>)
    ensures Seeded(Seeded(m)) == Seeded(m)
  {
  }

  /** However many menus have been constructed (at least one), the hash is
      the one a single construction leaves. */
  lemma {:induction false} SeedingIdempotent(m: map<string, seq<string>>, n: nat)
    requires n >= 1
    ensures SeededTimes(m, n) == Seeded(m)
  {
    if n > 1 {
      SeedingIdempotent(m, n - 1);
      SeededIdempotent(m);
    }
  }

  /** The seeded path and aliases are exactly the table's first row. */
  lemma SeedMatchesTable()
    ensures Table[0].Path() == SmilePath && Table[0].aliases == SmileSeed
  {
  }
}
