# leadcore-map: region matching, aggregation and tooltip placement in Dafny

The widget draws a map of Russia's regions and shows contact cards for the
representatives assigned to a region. Its logic lives in `src/utils.ts` and in
the placement code of the hover tooltip. This project models that logic as
pure Dafny functions and proves properties about it:

- **Region matcher** (`region_matcher.dfy`). This covers `normalizeRegionId`,
  `isRepresentativeInRegion`, `getRepresentativesForRegion` and
  `findRegionById`. A representative's `regionId` may be absent, one string or
  a list. Each string is either a region id or a federal-district code. The
  region catalog `RUSSIA_REGIONS` is a parameter, a sequence of
  `Region(id, name, info)` records.
- **Formatting** (`formatting.dfy`). This covers `getPluralForm`, the Russian
  ending of "представител-" after a count, and `getInitials`.
- **Activity statistics** (`activities.dfy`). This covers `getActivitiesStats`.
  The JavaScript `Map` is modelled as its keys in insertion order plus a
  `map<string, nat>`. The stable `Array.prototype.sort` is modelled as a
  stable insertion sort by descending count.
- **SVG paths** (`svg_path.dfy`). This covers `polygonToPath`,
  `multiPolygonToPath` and `geometryToPath`. Only the path structure is
  modelled. Turning a position into text is the parameter `pointText`.
- **Tooltip** (`region_tooltip.dfy`). This covers the `left`/`top` placement
  of `RegionTooltip.tsx`, the "Нет офиса" / "N представител…" label, and the
  early return when the region is unknown.

Shared helpers: `wrappers.dfy` (Option), `text.dfy` (JavaScript `join`,
one-character `split`, decimal numerals), `seqs.dfy` (`filter`) and
`domain.dfy` (the records). `src/types.ts` and `src/constants.ts` are not part
of this model. The record shapes follow what `src/utils.ts` reads from them.

Two behaviours of the code worth noting:

- Ring subpaths, and the paths of the polygons of a multi-polygon, are joined
  with a single space rather than simply concatenated. A multi-polygon with a
  polygon that has no rings therefore produces an extra space
  (`RinglessPolygonDoubleSpace`).
- The tooltip's bottom flip keeps the tooltip inside the window. It keeps
  only 10px below the tooltip, not the 16px padding (`PlaceFitsVertically`).

## Model

| member | source | states |
|---|---|---|
| RegionMatcher.NormalizeRegionId | src/utils.ts:5-8 | An absent or empty id gives "". Otherwise the result has the input's length and differs from it only at index 1, and only by turning a leading `RF-` into `RU-`. The result never starts with `RF-`. |
| RegionMatcher.NormalizeIdempotent | src/utils.ts:5-8 | Normalising twice is the same as normalising once. |
| RegionMatcher.NormalizePrefixInsensitive | src/utils.ts:4-8 | `RF-x` and `RU-x` normalise to the same id, `RU-x`. |
| RegionMatcher.SameCanonical | src/utils.ts:5-8 | Two ids normalise equally exactly when they are equal, or they share everything after a 3-character prefix that is `RF-` or `RU-` on each side (both directions). |
| RegionMatcher.Associations | src/utils.ts:12-15 | Scalar-or-list `regionId` with falsy entries dropped: every entry is non-empty, and a string is present exactly when it was listed and is non-empty. |
| RegionMatcher.FindByCanonical | src/utils.ts:26-27 | `find` over the catalog: None exactly when no region's normalised id is the key; otherwise the region at the first matching index. |
| RegionMatcher.IsRepresentativeInRegion | src/utils.ts:11-31 | False with no non-empty association or a target that normalises to "". True on a prefix-insensitive direct match. Otherwise true exactly when the catalog's first region with that normalised id exists and its district code is among the associations verbatim. |
| RegionMatcher.InRegionPrefixInsensitive | src/utils.ts:17-23 | Membership under target `RF-x` equals membership under `RU-x`. |
| RegionMatcher.InRegionMonotone | src/utils.ts:20-30 | Appending associations to a representative's list never removes it from a region. |
| RegionMatcher.RepresentativesForRegion | src/utils.ts:34-39 | The result is no longer than the input. It holds exactly the input elements that satisfy the membership predicate. |
| RegionMatcher.RepresentativesForRegionExact | src/utils.ts:34-39 | The result is an order-preserving subsequence of the input. Each matching element occurs as often as in the input, and non-matching ones never occur. |
| RegionMatcher.RepresentativesForRegionPrefixInsensitive | src/utils.ts:34-39 | Selecting by `RF-x` and by `RU-x` gives the same list. |
| RegionMatcher.FindRegionById | src/utils.ts:157-160 | None exactly when no catalog id normalises like the argument. Otherwise the result is the catalog region at the first index whose normalised id matches, as `find` returns the first hit. |
| RegionMatcher.FindRegionByIdCanonical | src/utils.ts:157-160 | Lookup is unchanged by normalising the argument first or by swapping `RF-` for `RU-`. |
| RegionMatcher.ExampleDistrictMatch | src/utils.ts:25-30 | A representative listed under ЦФО and СЗФО serves a ЦФО region and not a ЮФО region. |
| RegionMatcher.ExamplePrefixMatch | src/utils.ts:12-23 | A representative listed under `RU-SPE` is matched by target `RF-SPE`, and never by an empty target. |
| Formatting.PluralForm | src/utils.ts:106-114 | The ending is one of "ь", "я", "ей". "ь" only for a last digit 1, and "я" only for a last digit 2..4. |
| Formatting.PluralFormByDigits | src/utils.ts:106-114 | For every count, the ending equals the digit rule: a tens digit of 1 gives "ей"; otherwise last digit 1 gives "ь", 2..4 gives "я", and anything else gives "ей". |
| Formatting.PluralFormPeriodic | src/utils.ts:106-114 | The ending depends only on the last two digits: count and count + 100 agree. |
| Formatting.PluralFormExamples | src/utils.ts:106-114 | 1→"ь", 2→"я", 5→"ей", 11→"ей", 21→"ь", 0→"ей". |
| Formatting.GetInitials | src/utils.ts:94-103 | One or two characters. "?" for an absent or empty name. When the name does not start with a space, the first character is the upper-cased first letter. |
| Formatting.InitialsOfTwoWords | src/utils.ts:94-103 | For "W1 W2" or "W1 W2 rest", the initials are the upper-cased first letters of W1 and W2; later words are ignored. |
| Formatting.InitialsOfOneWord | src/utils.ts:94-103 | A single word without spaces gives exactly one initial, its upper-cased first letter. |
| Formatting.InitialsAfterDoubleSpace | src/utils.ts:94-103 | In "W1  rest", with two spaces, the second leading word is empty, so the initials are only W1's upper-cased first letter. |
| Formatting.InitialsOfFirstWord | src/utils.ts:94-103 | For a space-free first word followed by a space and any tail, the initials are the first word's upper-cased letter, followed by the tail's upper-cased first letter unless the tail is empty or starts with a space. So "Ab " gives "A". |
| Formatting.InitialsOfLeadingSpace | src/utils.ts:94-103 | For " " followed by any tail, the result is "?" when the tail is empty or starts with a space, and otherwise the tail's upper-cased first letter. |
| Formatting.InitialsAfterLeadingSpace | src/utils.ts:96-102 | A leading space makes the first word empty, so only the second word's letter is used. |
| Activities.Entries | src/utils.ts:128-129 | One entry per key, in the Map's key order, carrying that key's count. |
| Activities.Increment | src/utils.ts:123 | `map.set(tag, (get ‖ 0) + 1)`: keys stay distinct. An existing key keeps its place and a new key is appended at the end. The tag's count rises by one, other counts are unchanged, and the total rises by one. |
| Activities.Tally | src/utils.ts:118-126 | Every tag becomes exactly one key, each key's count is its number of occurrences, and the counts sum to the number of tags. |
| Activities.TallyKeysInFirstOccurrenceOrder | src/utils.ts:118-126 | The Map's keys come in the order in which the tags are first met: of two keys, the earlier one occurs first earlier in the tag list. |
| Activities.SortByCount | src/utils.ts:128-130 | The result is a permutation of the entries (same multiset) sorted by non-increasing count, with the same total. |
| Activities.SortStable | src/utils.ts:130 | For every count value, the entries with that count keep their input order (the sort is stable). |
| Activities.GetActivitiesStats | src/utils.ts:117-131 | Names are distinct. Each name's count equals its number of occurrences over all representatives' `activity` lists, and a name appears exactly when it is some tag. The list is sorted by non-increasing count, and the counts sum to the number of tags. |
| Activities.SortKeepsTiesRanked | src/utils.ts:128-130 | If the entries are listed in increasing rank, the sorted entries with equal counts are still in increasing rank. |
| Activities.ActivitiesStatsTieOrder | src/utils.ts:117-131 | Of two result entries with the same count, the one whose tag first occurs earlier among all representatives' tags comes first. |
| Activities.ActivitiesStatsExample | src/utils.ts:117-131 | Tags [A, B] and [A] give [(A, 2), (B, 1)]. |
| SvgPath.PolygonToPath | src/utils.ts:66-76 | The path is empty exactly when there are no rings. Otherwise it starts with `M` and ends with `Z`. |
| SvgPath.PolygonPathParses | src/utils.ts:66-76 | If point texts contain no space or `L`, splitting the path at spaces gives one `M…Z` subpath per ring, and splitting each subpath's inside at `L` gives that ring's point texts. |
| SvgPath.TrianglePath | src/utils.ts:66-76 | A one-ring triangle is `M a L b L c Z`. |
| SvgPath.MultiPolygonToPath | src/utils.ts:79-81 | No polygons give "". One polygon gives that polygon's path. |
| SvgPath.MultiPolygonAppend | src/utils.ts:79-81 | The path of two consecutive non-empty groups of polygons is their paths joined by one space, ring-less polygons included. |
| SvgPath.RinglessPolygonDoubleSpace | src/utils.ts:79-81 | A polygon with no rings between two others leaves two spaces between their paths. |
| SvgPath.MultiPolygonFlattens | src/utils.ts:79-81 | If every polygon has a ring, the multi-polygon path equals the polygon path of all rings in order. |
| SvgPath.GeometryToPath | src/utils.ts:84-91 | Unsupported types give "". A Polygon is drawn as `polygonToPath` draws its rings, so its path is empty exactly when it has no rings and is otherwise delimited by `M`…`Z`. A MultiPolygon is drawn as `multiPolygonToPath` draws its polygons, so no polygons give ""; when each of its polygons has a ring, its path is the polygon path of all rings in order. |
| SvgPath.PointGeometryIsEmpty | src/utils.ts:84-91 | A `Point` geometry draws nothing. |
| RegionTooltip.Place | src/components/RegionTooltip.tsx:23-48 | `left` ≥ 16 and `top` ≥ 16. The default is (x+20, y−40). Crossing the right padding flips to x−240, and crossing the bottom padding moves to y−90. Each is then clamped to 16, so the clamps override the flips. |
| RegionTooltip.PlaceDefaultKept | src/components/RegionTooltip.tsx:27-48 | The default left/top survive exactly when the edge test does not fire and no clamp is needed (or the clamp happens to equal the default). |
| RegionTooltip.PlaceFitsHorizontally | src/components/RegionTooltip.tsx:27-48 | With the cursor inside a window at least 252px wide, the tooltip stays between the left and right 16px paddings. |
| RegionTooltip.PlaceFitsVertically | src/components/RegionTooltip.tsx:28-43 | With the cursor inside a window at least 106px high, the tooltip starts at or below 16px and ends at least 10px above the bottom edge. |
| RegionTooltip.PlaceBottomEdgeExample | src/components/RegionTooltip.tsx:36-38 | A cursor on the bottom edge of a 600px window leaves exactly 10px below the tooltip, so the 10px bound is tight. |
| RegionTooltip.CountLabel | src/components/RegionTooltip.tsx:67-70 | The label is "Нет офиса" exactly for 0. Otherwise it is the count's numeral, which parses back to the count, followed by " представител" and the plural ending. |
| RegionTooltip.RenderTooltip | src/components/RegionTooltip.tsx:16-70 | Nothing is shown exactly when the region lookup fails. Otherwise the tooltip shows the region's name. The active dot is lit exactly when some representative matches, and the label is "Нет офиса" exactly when none does. The label counts the filtered list, and the placement is the one `Place` computes, inside the paddings. |
| RegionTooltip.RenderTooltipPrefixInsensitive | src/components/RegionTooltip.tsx:16-18 | Hovering `RF-x` and `RU-x` shows the same tooltip. |

## Left out

- `projectPoint` (src/utils.ts:42-63) is left out. It is floating-point Mercator arithmetic (`Math.log`, `Math.tan`, π), and `toFixed(2)` formatting is not modelled either. Both together are the uninterpreted parameter `pointText`. The "no space and no `L` in a point text" premise of `PolygonPathParses` holds for `toFixed` output (digits, sign, point, the exponent's `e` and `+`, `NaN`, `Infinity`), but it is not derived from it.
- `findRegionByName` (src/utils.ts:134-154) is left out. It relies on regular-expression suffix stripping and Unicode `toLowerCase`, and its results depend on catalog contents that are not part of this model.
- `getMockRepresentatives` (src/utils.ts:163-211) is fixture data. Some of its values appear only in the example lemmas.
- React components, hooks, JSX and styling are left out. This covers `RussiaMap.tsx`, `StatsSection.tsx`, `ContactPanel.tsx`, `RepresentativeCard.tsx`, `RegionPath.tsx`, `FallbackRegion.tsx`, `ViewToggle.tsx`, `SkeletonLoader.tsx` and `useIsMobile.ts`. So are DOM mounting (`main.tsx`), the build configuration and the pan/zoom library. They are presentation, or they depend on `regionMapping.ts`, which is not part of this model.
- The contents of `RUSSIA_REGIONS`, `FALLBACK_REGIONS` and `MAP_COLORS` are not modelled. The catalog is a parameter instead.
- Formatting.PluralForm: the count is a natural number, because the only caller passes an array length. JavaScript `%` on negative or fractional counts is not modelled.
- Formatting.GetInitials: `toUpperCase` is the parameter `upper`, applied one character at a time. Case mappings that change a string's length (such as ß → SS) are not modelled. Strings are sequences of characters rather than UTF-16 code units, so `word[0]` of a surrogate pair is not modelled.
- RegionTooltip.Place: mouse coordinates and window sizes are integers. Fractional pixel coordinates are not modelled.
- SvgPath.GeometryToPath: an `OtherGeometry` whose `kind` is "Polygon" or "MultiPolygon" does not occur, since those types are their own constructors; the model would draw nothing for it. Malformed coordinate arrays are not modelled. Positions with extra elements (altitude) are reduced to longitude and latitude, which is all the source reads.
- RegionMatcher.Associations: a `regionId` list holding non-string falsy values (`null`, `undefined`) is not modelled. The list's type admits only strings, and the empty string is the falsy value that is dropped.
