# Emoticon text codec of the Tox Qt GUI

This project models the emoticon codec of `EmoticonMenu` in
`src/emoticonmenu.cpp` and proves properties of it in Dafny. The codec has
four parts:

- **the emoticon table** (`smileyPairList`). It is an ordered list of
  fourteen rows, each an image path and its aliases (`":)"`, `":-)"`, …).
  The model is `Emoticons.Table`. Each row stores its icon name, and its
  path is `":/icons/emoticons/emotion_" + name + ".png"`, the same string
  the source writes out.
- **`smile`**. Row by row and alias by alias, it replaces every occurrence
  of the alias with `<img src="PATH" />`. `QString::replace` is modelled as
  `Strings.ReplaceAll`: it scans left to right, replaces non-overlapping
  occurrences and never rescans text it inserted. The method
  `SmileCodec.Smile` keeps the nested loops and is proved equal to a left
  fold of `ReplaceAll`.
- **the substitution loop of `desmile`**. A counter `i` starts at 0. The
  loop searches for the first image tag at or after `i` and looks its path
  up in the table. On a hit it replaces every copy of the tag with the
  row's first alias, or removes the tag if the alias list is empty. Then it
  increments `i` by one and searches again. No tag with a table image path
  is left when the loop ends (`DesmileCodec.DesmiledClears`). `DesmileCodec.Desmile` is the
  loop, and `DesmileCodec.FindRow` is its inner loop over the table.
- **the shared smiley hash** (`getSmileyHash`). Every menu construction
  inserts the smile row into it. The model is `SmileyHashes.SmileyHash`, a
  class with a map field and an overwriting `Insert`.

Facts about the table do most of the work. Every alias is 2 to 8
characters long, contains no `<` or `>`, and ends in one of
`( ) * ; ] D O P |`. No image path and no fixed part of a tag contains any
of those characters. So an inserted tag can never create a new alias
occurrence, and the proofs of "no alias survives `smile`", idempotence and
the fixed-point characterisation rest on this. The same facts bound every
`desmile` replacement (at most 8 characters) below the tag it replaces (at
least 14), which is what makes the loop terminate. An inserted alias can
never be part of a tag either: a tag cannot start inside it (no `<`), end
inside it (no `>`) or cover it (its last character is one no tag holds).
That is why no tag with a table path survives the loop.

Files: `strings.dfy` (`Strings`), `emoticons.dfy` (`Emoticons`),
`smile.dfy` (`SmileCodec`), `desmile.dfy` (`DesmileCodec`),
`smile_examples.dfy` (`SmileExamples`), `smiley_hash.dfy` (`SmileyHashes`).

## Model

| member | source | states |
|---|---|---|
| Strings.ReplaceAllAbsent | src/emoticonmenu.cpp:76 | replacing a pattern that does not occur leaves the text unchanged |
| Strings.ReplaceAllLeavesNoOccurrence | src/emoticonmenu.cpp:76 | after every occurrence of `pat` is replaced by a text that cannot take part in an occurrence of `a`, `a` does not occur, provided `a` is `pat` or did not occur before |
| Strings.ReplaceAllNoLonger | src/emoticonmenu.cpp:96 | a replacement no longer than the pattern never lengthens the text |
| Strings.ReplaceAllShrinks | src/emoticonmenu.cpp:96 | a strictly shorter replacement of a pattern that occurs makes the text strictly shorter |
| Strings.ReplaceAllCopiesPrefix | src/emoticonmenu.cpp:96 | a prefix in which no occurrence of the pattern starts is copied unchanged |
| Strings.ReplaceAllAtFirst | src/emoticonmenu.cpp:96 | at the first occurrence of the pattern, the text before it is copied, the occurrence becomes the replacement, and the scan resumes right after it |
| Strings.ReplaceAllSingle | src/emoticonmenu.cpp:96 | in `u + pat + v`, when no occurrence of `pat` starts inside `u` and none lies in `v`, the result is `u + rep + v` |
| Emoticons.AliasListsNonEmpty | src/emoticonmenu.cpp:25-41 | no alias list of the table is empty, so the `remove` branch of `desmile` is never taken with this table |
| Emoticons.PathsDistinct | src/emoticonmenu.cpp:25-41 | the image paths of the table are pairwise distinct |
| Emoticons.AliasesWellShaped | src/emoticonmenu.cpp:25-41 | every alias is 2 to 8 characters long, ends in a special character and contains no angle bracket |
| Emoticons.PathsWellShaped | src/emoticonmenu.cpp:25-41 | every image path is written only with lower-case letters, `:`, `/`, `_` and `.` |
| Emoticons.TableWellShaped | src/emoticonmenu.cpp:25-41 | every row is well shaped, and so is every alias of the table |
| Emoticons.TagInert | src/emoticonmenu.cpp:76 | the tag `smile` inserts cannot take part in an occurrence of any well-shaped alias |
| SmileCodec.Smile | src/emoticonmenu.cpp:72-80 | the nested loops compute the fold of `ReplaceAll` over all (row, alias) pairs in table order |
| SmileCodec.SmileEntriesUnchanged | src/emoticonmenu.cpp:74-77 | rows none of whose aliases occur leave the text unchanged |
| SmileCodec.SmileEntriesClears | src/emoticonmenu.cpp:74-77 | after the rows are processed, none of their aliases occurs, and no other alias that was absent appears |
| SmileCodec.SmileWithoutAliasIsIdentity | src/emoticonmenu.cpp:72-79 | `smile` returns its input unchanged when no alias of the table occurs in it |
| SmileCodec.SmiledHasNoAlias | src/emoticonmenu.cpp:74-77 | no alias of the table occurs in the output of `smile` |
| SmileCodec.SmiledFixedPointIff | src/emoticonmenu.cpp:72-80 | `smile` leaves a text unchanged if and only if no alias occurs in it |
| SmileCodec.SmileIdempotent | src/emoticonmenu.cpp:72-80 | smiling twice equals smiling once |
| SmileCodec.SmileEntriesAppend | src/emoticonmenu.cpp:74-78 | processing rows `xs` and then rows `ys` is processing `xs + ys` |
| SmileExamples.SmileCharBeforeSmiley | src/emoticonmenu.cpp:27-40 | for every character `x`, `smile([x] + ":)")` is `x` followed by the smile tag, because `":)"` is rewritten first |
| SmileExamples.SmileAngelAndEvilGrin | src/emoticonmenu.cpp:27-40 | `smile("O:)")` and `smile("]:)")` give the character followed by the smile tag, not the angel or evil-grin tag |
| SmileExamples.SmileInLove | src/emoticonmenu.cpp:27-38 | `smile("(inlove)")` is exactly the love tag |
| SmileExamples.SmileTwoSad | src/emoticonmenu.cpp:76 | `smile(":(:(")` is two copies of the sad tag: every occurrence is replaced |
| SmileExamples.SmileSmiley | src/emoticonmenu.cpp:27 | `smile(":)")` is exactly the smile tag |
| SmileExamples.SmileSentence | src/emoticonmenu.cpp:72-80 | `smile("hello :) world")` is `"hello "`, the smile tag and `" world"` |
| SmileExamples.SmileThenDesmileSmiley | src/emoticonmenu.cpp:72-102 | the `desmile` markup loop turns `smile(":)")` back into `":)"` |
| SmileExamples.SmileThenDesmileInLove | src/emoticonmenu.cpp:72-102 | the `desmile` markup loop turns `smile("(inlove)")` back into `"(inlove)"` |
| SmileExamples.SmileThenDesmileSentence | src/emoticonmenu.cpp:72-102 | the `desmile` markup loop turns `smile("hello :) world")` back into the sentence |
| DesmileCodec.QuoteFrom | src/emoticonmenu.cpp:86 | the result is the first quote character at or after `q`, or none if there is none |
| DesmileCodec.TagAt | src/emoticonmenu.cpp:86 | a recognised path is quote-free and its canonical tag occurs at `p` |
| DesmileCodec.TagAtFindsTag | src/emoticonmenu.cpp:86 | every canonical tag with a quote-free path is recognised, and its path is read back exactly |
| DesmileCodec.FindTag | src/emoticonmenu.cpp:86-87 | a match is the first canonical tag starting at or after `i`, its whole text is the tag and its path lies inside it; no match means no tag starts at or after `i` |
| DesmileCodec.LookupFrom | src/emoticonmenu.cpp:90-91 | the result is the first row whose path equals `src`, or none if no row has it |
| DesmileCodec.FindRow | src/emoticonmenu.cpp:90-100 | the inner loop with its `break` stops at the row `LookupFrom` names |
| DesmileCodec.TableShaped | src/emoticonmenu.cpp:25-41 | the table's aliases are at most 8 characters, its alias lists are non-empty and its paths are distinct |
| DesmileCodec.DesmileStepNoLonger | src/emoticonmenu.cpp:93-97 | one loop step never makes the text longer |
| DesmileCodec.DesmileStepKnown | src/emoticonmenu.cpp:90-100 | a match whose path belongs to row `k` has every copy of its tag replaced by row `k`'s first alias |
| DesmileCodec.DesmileStepUnknown | src/emoticonmenu.cpp:90-100 | a match whose path belongs to no row leaves the text unchanged |
| DesmileCodec.Desmile | src/emoticonmenu.cpp:82-102 | the loop, with `i` advanced by exactly one per turn, returns the text the step-by-step definition gives, and no tag with a table image path is left in it |
| DesmileCodec.DesmiledNoLonger | src/emoticonmenu.cpp:88-102 | the loop never makes the text longer |
| DesmileCodec.DesmiledPlainText | src/emoticonmenu.cpp:87-88 | text without `<` leaves the loop unchanged |
| DesmileCodec.DesmiledShrinks | src/emoticonmenu.cpp:88-102 | a tag with a known path at or after `i` makes the result strictly shorter |
| DesmileCodec.DesmiledUnchanged | src/emoticonmenu.cpp:88-102 | without a tag with a known path at or after `i`, the loop changes nothing |
| DesmileCodec.DesmiledUnchangedIff | src/emoticonmenu.cpp:88-102 | the loop leaves the text unchanged if and only if no tag with a known path starts at or after `i` |
| DesmileCodec.TagBeforeAlias | src/emoticonmenu.cpp:96 | a canonical tag that starts no later than an inserted alias ends before the alias: the alias has no `<` or `>` and ends in a character no tag holds |
| DesmileCodec.KnownStepClears | src/emoticonmenu.cpp:93-96 | replacing a tag whose first copy starts at `n`, where no known tag starts before `n`, by a well-shaped alias leaves no known tag at or before `n` |
| DesmileCodec.DesmiledClearsFrom | src/emoticonmenu.cpp:88-101 | entered with no known tag before `i`, the loop leaves no tag with a known path anywhere in the text |
| DesmileCodec.DesmiledClears | src/emoticonmenu.cpp:82-102 | for every input, no tag whose path is a table image path is left in the output of the loop |
| DesmileCodec.DesmileSingleTag | src/emoticonmenu.cpp:86-101 | a single tag of row `k` between texts without `<` comes back as row `k`'s first alias |
| DesmileCodec.DesmileLoneTag | src/emoticonmenu.cpp:86-101 | the tag of row `k` on its own comes back as row `k`'s first alias |
| SmileyHashes.SmileyHash.constructor | src/emoticonmenu.cpp:68 | the static hash starts out empty |
| SmileyHashes.SmileyHash.Insert | src/emoticonmenu.cpp:58 | insert overwrites the key's value and keeps every other key |
| SmileyHashes.Seeded | src/emoticonmenu.cpp:58 | after seeding, the smile path maps to `[":)", ":-)", ":o)"]`, other keys keep their values and no other key is added |
| SmileyHashes.SeedSmileyHash | src/emoticonmenu.cpp:58 | the constructor's insert leaves the hash seeded |
| SmileyHashes.SeededIdempotent | src/emoticonmenu.cpp:58 | seeding twice equals seeding once |
| SmileyHashes.SeedingIdempotent | src/emoticonmenu.cpp:58 | after any number of menu constructions (at least one), the hash equals the hash after one construction |
| SmileyHashes.SeedMatchesTable | src/emoticonmenu.cpp:27 | the seeded path and aliases are exactly the table's first row |

## Notes on the code

- After each match `desmile` increments `i` by one from its previous value (line 101). It does not move past the match. The match may start well after `i`, so the next search can find the same tag again when its path is unknown. `Desmile` does the same.
- The canonical aliases of the evil-grin and angel rows never produce their own image. `":)"` (line 27) is rewritten before `"]:)"` and `"O:)"` (lines 39-40), so those aliases come out as their first character followed by the smile image (`SmileAngelAndEvilGrin`).
- Every `EmoticonMenu` constructor inserts the smile row into the shared hash (line 58). `getSmileyHash` only returns the static object (lines 66-70).

## Left out

- The regular expression of `desmile` (line 86) is not transcribed. `TagAt` recognises only the canonical tag `<img src="PATH" />` that `smile` writes, with a quote-free path. Other `img` markup is not recognised: an `alt` attribute, a different attribute order, other spacing, single quotes, or a path that starts with white space. The model can differ from the code on such input in two more ways. The lazy `[^>]*?` lets a match start at an earlier stray `<img ` and run on into a canonical tag after it; the code then replaces that whole span, while the model replaces only the canonical tag. And `TagAt` accepts a path that starts with white space (keeping the space) or holds a line break, where the regular expression strips the leading white space or, across a line break, does not match at all.
- The plain-text conversion through `QTextDocument` (lines 105-107) calls into code that is not part of this model. `Desmile` returns the text as it is before that conversion.
- The menu, layout, button, icon and signal code (lines 43-63 apart from line 58, and lines 110-134) is Qt user-interface wiring.
- `getSmileyHash` returns a function-local static object (lines 66-70). The model passes the `SmileyHash` object explicitly and leaves out lazy static initialisation and lifetime.
- `QString::replace` with an empty pattern is not modelled. `ReplaceAll` requires a non-empty pattern, and every alias and every tag is non-empty.
- The `int` counter `i` of `desmile` is unbounded in the model. It never exceeds the text length, so overflow cannot happen.
- Strings are sequences of characters. Qt's UTF-16 code units and its case-sensitive comparison are taken as plain character equality.
- Desmile: the counter `i` counts characters, while the code's `i` counts UTF-16 code units, and `re.match(htmlText, ++i)` (line 101) is documented to fail when the offset falls between the two halves of a surrogate pair (Qt hands the subject to PCRE in UTF mode with checking on), which ends the loop at line 88 early. On `"😀" + Tag(smile path) + Tag(sad path)` the code would therefore stop after the first tag, where the model returns `"😀:):("`; on text holding an unpaired surrogate the code's search fails at once and nothing is replaced. The model has no code units, so this early stop is not modelled.
- DesmiledClears: "no tag with a table image path is left", and the matching `ensures` of `Desmile`, hold for the code only on text whose characters all lie in the Basic Multilingual Plane, by the previous line.
