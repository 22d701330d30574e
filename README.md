# tailwindcss-contain, modelled in Dafny

This project models the core of the `tailwindcss-contain` plugin. The plugin adds `contain-*` utility classes, and each class sets the CSS `contain` property. The core has two parts:

- **The value table** (`contain_values.dfy`, module `ContainValues`). `generateContainValues` builds a map from class-name suffix to `contain` value.
  - It starts from eight fixed entries: `none`, the shorthands `strict` and `content`, and the CSS-wide keywords `inherit`, `initial`, `revert`, `revert-layer` and `unset`.
  - It then walks every bitmask from 1 to 31 over the keywords `size, inline-size, layout, style, paint`.
  - It skips any selection that holds both `size` and `inline-size`.
  - For every other selection, it adds `keywords joined by "-"` → `keywords joined by " "`, but only when the key does not already hold a value.
  - The source's own doc comment (src/index.ts:4-6) gives the grammar it enumerates as `none | strict | content | [ size || inline-size || layout || style || paint ]`. The skip at src/index.ts:37-38 narrows this to `[ [ size | inline-size ] || layout || style || paint ]`: `size` and `inline-size` exclude each other.
  - `||` admits the keywords in any order, but the table lists each set of keywords once, in declaration order (`DefaultTableKeepsOrder`).
- **The utility registrar** (`contain_plugin.dfy`, module `ContainPlugin`). The plugin callback picks the table the theme supplies under `contain`, or the default table when the theme supplies none. It folds that table into `{ ".contain-<name>": { contain: <value> } }`.

The keywords are the enumeration `Keyword` (`Size | InlineSize | Layout | Style | Paint`), and `Name` gives each one its CSS name. The five names are distinct, so the test `parts.includes('size')` on the source's array of names is the same as asking whether the keyword `Size` is in the model's list. Strings appear only where keys and values are built.

The generator is imperative, as the source is. `GenerateContainValues` is a method with the source's two nested `for` loops and the same `continue` and `!values[key]` tests. Where the source pushes onto a `parts` array and assigns into the `values` object, the model appends to a local sequence and reassigns a local map value (`values := values[key := value]`). Both are local to the call and nothing else refers to them until the table is returned, so the in-place updates are not observable and nothing is lost. Its loop invariant ties each step to the function `TableUpTo`, which gives the table after the first rounds of the outer loop. The properties are lemmas about `TableUpTo` and `DefaultTable`. The `reduce` is the method `BuildUtilities`: a loop over the table's names that writes into an accumulator. It is proved equal to the function `UtilityMap`.

Several members are plain definitions of the source's expressions. They carry no contract of their own; the lemmas named here state their properties:
- `ContainValues.HasBothSizeAndInlineSize` is the predicate at src/index.ts:27-28. `GeneratesIff` characterises it on the masks: it holds exactly when the mask is 3 modulo 4.
- `ContainValues.Falsy` is the test `!values[key]` at src/index.ts:43. `FalsyMeansAbsent` shows that, on every intermediate table, it holds exactly when the key is absent.
- `ContainValues.Step` is one round of the outer loop, src/index.ts:38-45. `StepInserts`, `TableStepSize` and `TableUpToKeepsSeeds` state what a round adds, how much the table grows and that seeded entries are never overwritten.
- `ContainValues.DefaultTable` is `defaultContainValues` at src/index.ts:51. `GenerateContainValues` is proved to return it, and `DefaultTableSize`, `DefaultTableSeeds`, `DefaultTableComplete` and `DefaultTableKeys` describe its contents.
- `ContainPlugin.EffectiveMapping` is `theme('contain') || defaultContainValues` at src/index.ts:56. `AddContainUtilities`, `DefaultUtilitiesSize`, `CustomThemeUtilities` and `EmptyThemeUtilities` state which table it picks.

The proofs have three key steps.
- The first three characters of each keyword are distinct (`siz`, `inl`, `lay`, `sty`, `pai`). So joining keyword lists with `-` is injective, even though `inline-size` itself contains a `-`.
- No seeded name begins with any of those three-character prefixes. So no generated key collides with a seeded one.
- Because every value is non-empty, the JavaScript test `!values[key]` means exactly "the key is absent".

The masks whose two low bits are both set are counted in blocks of four. This gives 23 generated entries, and 8 + 23 = 31 in all.

`theme('contain') || defaultContainValues` falls back to the default table when the lookup returns `undefined`. Other falsy values fall back too; they are under "## Left out". An empty object is truthy in JavaScript, so a supplied empty table is used as it is (`EmptyThemeUtilities`).

The host's `theme('contain')` lookup is an `Option<map<string, string>>` input. The host's `addUtilities` call is the returned map.

## Model

| member | source | states |
|---|---|---|
| ContainValues.GenerateContainValues | src/index.ts:8-49 | the generator's nested loops produce exactly the table of the eight seeds followed by the first-write-wins insertion of every non-skipped mask 1..31, and that table has 31 entries |
| ContainValues.PartsUpToSpec | src/index.ts:32-35 | the `parts` array after the inner loop holds only keywords, holds keyword `i` exactly when bit `i` of the mask is set, and lists them in strictly increasing declaration order |
| ContainValues.NonEmptySelection | src/index.ts:31-35 | every mask from 1 to 31 selects at least one keyword |
| ContainValues.GeneratesIff | src/index.ts:27-38 | a selection is skipped exactly when the mask sets both the `size` and `inline-size` bits, that is, when the mask is 3 modulo 4 |
| ContainValues.ValueNonEmpty | src/index.ts:41 | the space-joined value of every mask from 1 to 31 is non-empty |
| ContainValues.JoinKeywordsInjective | src/index.ts:40 | two keyword lists that join with `-` to the same key are the same list |
| ContainValues.KeyInjective | src/index.ts:31-40 | distinct masks below 32 give distinct keys |
| ContainValues.JoinNotSeeded | src/index.ts:9-40 | no non-empty keyword list joins with `-` to one of the eight seeded names |
| ContainValues.KeyNotSeeded | src/index.ts:9-40 | no generated key is one of the eight seeded names |
| ContainValues.FalsyMeansAbsent | src/index.ts:43 | after any number of rounds, the truthiness test `!values[key]` holds exactly when the key is absent |
| ContainValues.StepInserts | src/index.ts:43-45 | the key of a generating mask is not yet in the table when its round comes, and the round adds exactly that key with its value |
| ContainValues.TableUpToKeys | src/index.ts:31-46 | after each round, every key is seeded or is the key of a generating mask already handled, and no value is empty |
| ContainValues.TableUpToKeepsSeeds | src/index.ts:9-46 | first write wins: after each round, every seeded entry still holds its seeded value |
| ContainValues.TableUpToComplete | src/index.ts:31-46 | after each round, every generating mask already handled has its key with its own value, and no later round overwrites it |
| ContainValues.TableStepSize | src/index.ts:38-45 | a round adds one key when its mask is not 3 modulo 4, and none otherwise |
| ContainValues.TableUpToSize | src/index.ts:31-46 | after each round, the size is 8 plus the number of generating masks handled so far |
| ContainValues.SeedCount | src/index.ts:9-23 | the eight seeded names are distinct, so the table starts with eight entries |
| ContainValues.CountGeneratingBlocks | src/index.ts:31-38 | among masks 1 .. 4k-1, exactly 3k-1 are not skipped, so 23 of masks 1..31 generate |
| ContainValues.DefaultTableSize | src/index.ts:9-48 | the default table has exactly 31 keys, and none of its values is empty |
| ContainValues.DefaultTableSeeds | src/index.ts:9-23 | `none`→`none`, `strict`→`size layout paint style`, `content`→`layout paint style`, and each CSS-wide keyword maps to itself |
| ContainValues.DefaultTableComplete | src/index.ts:31-46 | every mask without both `size` and `inline-size` has its entry: the `-`-joined keywords mapped to the same keywords joined by a space |
| ContainValues.DefaultTableKeys | src/index.ts:9-46 | every key of the default table is seeded or is generated by a mask without both `size` and `inline-size` |
| ContainValues.KeyWithBothAbsent | src/index.ts:27-38 | the key of a single mask that selects both `size` and `inline-size` is absent from the default table |
| ContainValues.JoinWithBothAbsent | src/index.ts:27-46 | any list of keywords holding both `size` and `inline-size`, in any order, joins with `-` to a name that is not in the default table |
| ContainValues.DefaultTableExcludesBoth | src/index.ts:27-38 | no key built from both `size` and `inline-size`, from a mask or from any keyword list in any order, is in the default table |
| ContainValues.SizeInlineSizeAbsent | src/index.ts:27-38 | `size-inline-size` in particular is not a key of the default table |
| ContainValues.JoinOutOfOrderAbsent | src/index.ts:31-46 | keys follow declaration order: a keyword list that is out of declaration order somewhere, or repeats a keyword, joins with `-` to a name that is not in the default table |
| ContainValues.DefaultTableKeepsOrder | src/index.ts:25-41 | `layout-paint-style` is not a key, and `layout-style-paint` is |
| ContainValues.MaskEntry | src/index.ts:31-46 | a single mask without both `size` and `inline-size` has its key in the default table, mapped to its value |
| ContainValues.DefaultTableSingles | src/index.ts:31-46 | each of the five single keywords is a key that maps to itself |
| ContainValues.DefaultTableCombinations | src/index.ts:31-46 | `size-layout`→`size layout`, `inline-size-layout`→`inline-size layout`, `layout-paint`→`layout paint` and `layout-style-paint`→`layout style paint` are all present |
| ContainValues.LayoutStylePaintSpelled | src/index.ts:31-41 | mask 28 selects `layout`, `style` and `paint`, and spells the key `layout-style-paint` and the value `layout style paint` |
| ContainPlugin.SelectorSplits | src/index.ts:60 | the selector is `.contain-` followed by the name, and splitting off the prefix gives the name back |
| ContainPlugin.SelectorsDistinct | src/index.ts:60 | distinct names never share a selector |
| ContainPlugin.SelectorPresentIff | src/index.ts:58-64 | a name's selector is among the utilities exactly when the name is in the table |
| ContainPlugin.UtilityMap | src/index.ts:58-64 | for every name of the table, the selector `.contain-<name>` declares `contain` with that name's value |
| ContainPlugin.UtilityMapSelectors | src/index.ts:58-64 | no other selectors appear: a selector is present exactly when it is `.contain-` followed by a name of the table, and it declares that name's value |
| ContainPlugin.UtilityMapInsert | src/index.ts:59-61 | adding a new name to the table adds exactly its one utility, on a selector that was not there before |
| ContainPlugin.UtilityMapGrows | src/index.ts:59-61 | adding a name the table does not hold adds exactly one utility |
| ContainPlugin.UtilityMapSize | src/index.ts:58-64 | there are exactly as many utilities as names in the table |
| ContainPlugin.BuildUtilities | src/index.ts:58-64 | the `reduce` loop, taking the entries in any order, yields exactly the utility map of the table, one utility per name |
| ContainPlugin.AddContainUtilities | src/index.ts:54-66 | the callback registers the utility map of the theme's table when there is one, and otherwise of the generated default table, one utility per entry |
| ContainPlugin.DefaultUtilitiesSize | src/index.ts:56-64 | without a theme value there are exactly 31 utilities |
| ContainPlugin.DefaultUtilitiesEntries | src/index.ts:56-64 | without a theme value, `.contain-none`, `.contain-strict` and `.contain-content` declare the seeded values |
| ContainPlugin.DefaultUtilitiesExcludeBoth | src/index.ts:56-64 | without a theme value, `.contain-size-inline-size` does not exist |
| ContainPlugin.CustomThemeEntries | src/index.ts:58-64 | the table `{custom: "layout paint", another: "size style"}` gives `.contain-custom`→`layout paint` and `.contain-another`→`size style` |
| ContainPlugin.CustomThemeSelectors | src/index.ts:58-64 | the table `{custom: "layout paint", another: "size style"}` gives no selectors other than `.contain-custom` and `.contain-another` |
| ContainPlugin.CustomThemeUtilities | src/index.ts:56-64 | with the theme value `{custom: "layout paint", another: "size style"}`, the utilities are exactly `.contain-custom`→`layout paint` and `.contain-another`→`size style`, and no default ones |
| ContainPlugin.EmptyThemeUtilities | src/index.ts:56 | an empty theme value is truthy, so it is used as it is and yields no utilities, not the defaults |

## Left out

- The `tailwindcss/plugin` wrapper and the host's `theme` and `addUtilities` functions are foreign calls into a library that is not part of this model. `theme('contain')` is an optional input, and `addUtilities` is the returned map.
- The plugin's configuration object (src/index.ts:68-75) publishes the default table under the theme key `contain`. Tailwind's `theme.extend` deep merge decides what `theme('contain')` then returns. That merge is host behaviour, so the model takes the lookup's result as given.
- PostCSS processing, CSS text serialization and the order of output rules are I/O of external tools.
- JavaScript falsiness of theme values other than "absent" or "a table" (`null`, `false`, `0`, `""`) is not modelled. The source's `||` falls back to the default table for each of them too, but the model's input is either absent or a table. Neither are non-string values behind `value as string`. The source does not validate them, and the host reports any failure.
- `defaultContainValues` is computed once, when the module loads. The model's callback runs the generator itself. The generator takes no input and is deterministic, so the table is the same each time.
- The bit test `mask & (1 << i)` is written arithmetically: `HasBit` halves the mask `i` times and then reads the lowest bit. For the non-negative masks below 32 that the loop visits, this is the same test. `1 << n` is `Pow2(n)`; with five keywords it is 32, far from any 32-bit overflow.
- `Object.entries` yields integer-like names first, in ascending numeric order, and then the other names in insertion order. `BuildUtilities` takes the names in an arbitrary order instead. The names are distinct, so every order gives the same map.
