# Huffman coding visualizer — verified model of the codec core

The application counts the symbols of a text, builds a Huffman tree from the
counts, encodes the text with the tree's codes, and shows the encoded bits
split back into one code per symbol. Three route handlers and one display
component make up that core:

- `calculate-frequency`: counts every symbol of the text in one pass over a
  plain object and answers `Object.entries` of it as `{ char, count }` rows.
- `build-tree`: turns the entries of the frequency object into leaves. While
  more than one node is left, it sorts the list by frequency, shifts off two
  nodes and pushes their parent. Then `assignCodes` writes "0"/"1" paths from
  the root down.
- `encode`: collects each leaf's path into a `codes` object, joins the codes
  of the text's symbols, and reports the original size (8 bits per symbol)
  and the compressed size (the number of bits).
- `EncodedTextDisplay`: builds the same code table, inverts it into
  `codeToCharMap`, and cuts the bits greedily. It emits a segment as soon as
  the bits gathered so far are a known code.

The model is written in Dafny, one module per source file:

- `Js` holds the JavaScript semantics the code relies on. A plain object is
  its properties in creation order. Assignment replaces a value in place or
  appends a new key. `Object.fromEntries` assigns the entries one after the
  other. `Object.entries` lists array-index keys first in ascending order,
  then the other keys in creation order.
- `Sorting` is the stable `Array.prototype.sort`.
- `Frequency`, `BuildTree`, `Encode` and `EncodedTextDisplay` model the core
  files. `HuffmanNodes` holds the node shape they share. `RoundTrip` chains
  them as the page does.

The three loops are methods with loop invariants, each proved against a
specification function:

- `Frequency.CalculateFrequency` computes `TableOf`.
- `BuildTree.BuildHuffmanTree` computes `HuffmanTree`.
- The display's segmentation loop, `EncodedTextDisplay.EncodedChars`,
  computes `Segments`. `Segments` is then characterised as the unique
  greedy split of the bits.

Where the code departs from a textbook Huffman codec, the model follows the
code:

- With only one distinct symbol, the tree is a lone leaf. Its code is the
  empty string, so the text encodes to no bits and the display recovers
  nothing. `RoundTrip.PipelineSingleSymbol` proves this. A textbook coder
  gives that symbol a one-bit code.
- A symbol missing from the tree contributes nothing to the encoding,
  because `codes[char]` is `undefined` and joins as "". No error is raised
  (`Encode.MissingSymbol`).
- An empty frequency object gives an `undefined` tree (`None`), and the route
  answers it as a success.
- The display never reports a malformed stream. Trailing bits that never
  form a known code are dropped.
- The frequency rows come in `Object.entries` order. Digit symbols come
  first in ascending order, and every other symbol follows in order of first
  occurrence (`Frequency.TableOrder` covers the digit-free case).
- Ties in the merge loop are broken by the stable sort. Equal frequencies
  keep their current list order, and a parent is pushed after every node
  present.

## Model

| member | source | states |
|---|---|---|
| Js.Get | app/api/calculate-frequency/route.js:17 | `o[k]` is defined exactly when `k` is a key, and then it is the stored value |
| Js.GetIn | app/api/encode/route.js:34 | with unique keys, `o[k] == v` exactly when the property `k: v` is in the object |
| Js.Set | app/api/calculate-frequency/route.js:17 | after `o[k] = v`, `o[k]` is `v` and every other key reads as before |
| Js.SetKeys | app/api/calculate-frequency/route.js:17 | assignment keeps the key order for an existing key and appends a new key at the end |
| Js.SetUnique | app/api/encode/route.js:25 | assignment never creates a duplicate key |
| Js.ObjectExt | app/api/calculate-frequency/route.js:15-18 | two objects with unique keys, the same key order and the same lookups are equal |
| Js.Assign | components/EncodedTextDisplay.tsx:38 | assigning properties one after another keeps keys unique |
| Js.AssignAppend | components/EncodedTextDisplay.tsx:38 | assigning `a + b` is assigning `a`, then `b` |
| Js.FromEntries | components/EncodedTextDisplay.tsx:38 | `Object.fromEntries` builds an object with unique keys |
| Js.FromUniqueEntries | app/page.tsx:95 | entries whose keys are already distinct come back from `Object.fromEntries` unchanged, in order |
| Js.AssignKeys | components/EncodedTextDisplay.tsx:38 | after a run of assignments, the keys are exactly the old keys and the keys assigned |
| Js.SetValues | app/api/encode/route.js:25 | an assignment stores no value other than the old ones and the value assigned |
| Js.AssignValues | components/EncodedTextDisplay.tsx:38 | a run of assignments stores no value other than the old ones and the values assigned |
| Js.Entries | app/api/build-tree/route.js:15 | `Object.entries` lists every property once: same length, same multiset, unique keys kept |
| Js.EntriesOrder | app/api/calculate-frequency/route.js:19 | enumeration is sorted by key rank (array indices ascending first), and the non-index keys keep creation order |
| Js.EntriesWithoutIndexKeys | app/api/calculate-frequency/route.js:19 | an object without array-index keys enumerates in creation order |
| Js.EntriesIdempotent | app/page.tsx:95 | enumerating an object built from an enumeration gives the same order again |
| Sorting.Sort | app/api/build-tree/route.js:23 | `sort` returns a permutation of its input |
| Sorting.SortSorted | app/api/build-tree/route.js:23 | the sorted list is ordered by the comparison key |
| Sorting.SortStable | app/api/build-tree/route.js:23 | the sort is stable: the elements with each key value keep their relative order |
| Sorting.SortUnique | app/api/build-tree/route.js:23 | any ordered arrangement that keeps the per-key order is the sort's result, so a stable sort is determined |
| Sorting.SortOfSorted | app/api/build-tree/route.js:23 | sorting an ordered list changes nothing |
| Sorting.PermutationKeepsDistinct | app/api/build-tree/route.js:22-33 | a permutation keeps a list's values distinct under any projection |
| Frequency.IndexOf | app/api/calculate-frequency/route.js:16 | the position of a symbol's first occurrence |
| Frequency.TallyOver | app/api/calculate-frequency/route.js:15-18 | the tally over given symbols holds, in their order, each one-symbol key with its number of occurrences |
| Frequency.AsEntries | app/api/calculate-frequency/route.js:19 | `.map(([char, count]) => ({ char, count }))`: one row per property, in order, with the property's key and value |
| Frequency.CountSoFar | app/api/calculate-frequency/route.js:17 | on the object counted so far, `freq[char] \|\| 0` (`OrZero`) is the number of earlier occurrences of `char`, 0 for a symbol not seen yet |
| Frequency.TableOf | app/api/calculate-frequency/route.js:14-20 | the result has one row per distinct symbol, and it is empty exactly when the text is |
| Frequency.CalculateFrequency | app/api/calculate-frequency/route.js:14-20 | the counting loop and the mapping of entries compute exactly `TableOf(text)` |
| Frequency.Post | app/api/calculate-frequency/route.js:3-12 | a missing or empty text is answered with 400 "Text is required", any other string with the frequency rows |
| Frequency.FirstOccurrencesFacts | app/api/calculate-frequency/route.js:16-18 | the keys the loop creates are distinct and are exactly the symbols of the text, and a symbol occurs iff its count is positive |
| Frequency.FirstOccurrencesInOrder | app/api/calculate-frequency/route.js:16-18 | keys are created in order of first occurrence |
| Frequency.TallyUnique | app/api/calculate-frequency/route.js:15-18 | the frequency object has no duplicate key |
| Frequency.TallyGet | app/api/calculate-frequency/route.js:17 | `freq[k]` is the number of occurrences for a one-symbol key of the text, and `undefined` otherwise |
| Frequency.TallyStep | app/api/calculate-frequency/route.js:17 | one pass of the loop body is `freq[char] = (freq[char] \|\| 0) + 1` on the tally of the prefix, giving the tally of the longer prefix |
| Frequency.TallyPrefixStep | app/api/calculate-frequency/route.js:16-17 | the loop body applied to the tally of the first i symbols gives the tally of the first i + 1 |
| Frequency.LoopStepBumpsOne | app/api/calculate-frequency/route.js:17 | one pass adds one to the count of the symbol read (from `undefined` to 1 for a new symbol) and leaves every other count unchanged |
| Frequency.TallyKeysStep | app/api/calculate-frequency/route.js:17 | a pass keeps the key order for a symbol seen before and appends the key of a new symbol |
| Frequency.OccurrencesPositive | app/api/calculate-frequency/route.js:17 | a symbol has a positive count exactly when it occurs |
| Frequency.TableWeight | app/api/calculate-frequency/route.js:19 | summing `count * w(symbol)` over the rows equals summing `w` over the text, for every weight `w` |
| Frequency.TableRows | app/api/calculate-frequency/route.js:14-20 | rows have distinct one-symbol keys taken from the text, with count equal to the occurrences (at least 1), and every symbol of the text has its row |
| Frequency.CountsSumToLength | app/api/calculate-frequency/route.js:14-20 | the counts add up to the length of the text |
| Frequency.TableOrder | app/api/calculate-frequency/route.js:19 | without digit symbols, the rows come in order of first occurrence |
| HuffmanNodes.Fringe | app/api/build-tree/route.js:26-31 | a tree has at least one leaf, and its fringe holds only leaves |
| HuffmanNodes.LeafCount | app/api/build-tree/route.js:26-31 | every parent has two children, so a tree has one leaf more than it has parents |
| HuffmanNodes.MergedTotals | app/api/build-tree/route.js:26-31 | in a tree built by the merge loop, a node carries the sum of its leaves' frequencies and their symbols joined left to right |
| HuffmanNodes.EraseUncoded | app/api/build-tree/route.js:18 | a tree has no codes yet exactly when clearing its codes changes nothing |
| HuffmanNodes.CodesExtend | app/api/build-tree/route.js:35-43 | every leaf code extends its ancestor's path, and strictly so below a parent |
| HuffmanNodes.CodedPrefixFree | app/api/build-tree/route.js:35-43 | the leaf codes `assignCodes` writes are prefix-free: none is a prefix of, or equal to, another |
| BuildTree.Leaves | app/api/build-tree/route.js:15-20 | one leaf per entry, in entry order, with the entry's key and count and an empty code |
| BuildTree.Parent | app/api/build-tree/route.js:26-31 | the parent of two merged nodes is merged: it and every parent below it joins its children's symbols left to right and adds their frequencies |
| BuildTree.MergeStep | app/api/build-tree/route.js:23-32 | one pass shortens the list by one |
| BuildTree.MergeAll | app/api/build-tree/route.js:22-33 | the loop ends with no node for an empty list and exactly one otherwise |
| BuildTree.AssignCodes | app/api/build-tree/route.js:35-43 | codes are laid out from the root's code, "0" to the left and "1" to the right, and nothing else of the tree changes |
| BuildTree.HuffmanTree | app/api/build-tree/route.js:14-47 | whenever a tree is returned, its codes are laid out by `assignCodes` from "" (everything else is in `HuffmanTreeFacts`) |
| BuildTree.BuildHuffmanTree | app/api/build-tree/route.js:14-47 | the sorting, shifting and pushing loop followed by `assignCodes` computes `HuffmanTree(frequencyData)` |
| BuildTree.Post | app/api/build-tree/route.js:3-12 | a falsy or non-object payload is answered with 400 "Invalid frequency data", an object with its tree |
| BuildTree.MergeChoice | app/api/build-tree/route.js:23-25 | the two shifted nodes have the two smallest frequencies, and among equal frequencies they are the earliest in the list |
| BuildTree.MergeStepKeeps | app/api/build-tree/route.js:23-32 | a pass keeps the multiset of leaves and the total frequency, and keeps every node merged and uncoded |
| BuildTree.MergeAllKeeps | app/api/build-tree/route.js:22-33 | the whole loop keeps the multiset of leaves and the total frequency, and keeps every node merged and uncoded |
| BuildTree.MergedRoot | app/api/build-tree/route.js:22-33 | for a nonempty object, the node left is merged and uncoded, has the entries as its leaves and carries the sum of the counts |
| BuildTree.EraseFringe | app/api/build-tree/route.js:35-43 | clearing codes keeps every leaf's symbols and frequency |
| BuildTree.HuffmanTreeFacts | app/api/build-tree/route.js:14-47 | the tree is `undefined` iff the object is empty; otherwise its leaves are the entries, its parents add their children, the root frequency is the sum of all counts, there are n leaves and n-1 parents, and its codes are laid out from "" and prefix-free |
| BuildTree.SingleEntry | app/api/build-tree/route.js:22-45 | a single entry gives a lone leaf with the empty code |
| BuildTree.CodesNonempty | app/api/build-tree/route.js:22-45 | with two entries or more, the root is a parent and every leaf code is nonempty |
| Encode.Paths | app/api/encode/route.js:23-30 | on every tree, one path per leaf in left-to-right order, each under that leaf's symbols |
| Encode.GetCodesAssignsPaths | app/api/encode/route.js:23-30 | `getCodes` assigns each leaf's path into the shared object in left-to-right order |
| Encode.GetCodes | app/api/encode/route.js:23-30 | filling an object without duplicate keys leaves it without duplicate keys |
| Encode.CodeTable.constructor | app/api/encode/route.js:21 | the codes object starts empty |
| Encode.CodeTable.GetCodes | app/api/encode/route.js:23-30 | the in-place traversal assigns every leaf's path below the node into `codes`, left to right, on top of what was there |
| Encode.CodesOfPaths | app/api/encode/route.js:21-32 | the codes object is `Object.fromEntries` of the leaf paths |
| Encode.CodesKeys | app/api/encode/route.js:21-32 | on every tree, coded or not, the keys of the codes object are exactly the leaves' symbols; with distinct symbols they come in tree order |
| Encode.PathsBits | app/api/encode/route.js:27-28 | every path is the starting code extended by "0" and "1" steps |
| Encode.CodesBits | app/api/encode/route.js:21-32 | on every tree, each code in the codes object is a string of '0' and '1' |
| Encode.PathsOfCoded | app/api/encode/route.js:23-30 | on a tree coded by `assignCodes`, each path is the code written into that leaf |
| Encode.CodesOfLeaves | app/api/encode/route.js:21-32 | with distinct leaf symbols, the codes object has exactly the leaf symbols as keys and maps each to its leaf's code |
| Encode.CodeOf | app/api/encode/route.js:34 | a symbol without a key reads as "" (`undefined` joins as nothing), and a nonempty code is a stored property of that symbol |
| Encode.Join | app/api/encode/route.js:34 | when every stored code is a bit string, so is the joined encoding |
| Encode.JoinAppend | app/api/encode/route.js:34 | the encoding of a concatenation is the concatenation of the encodings |
| Encode.MissingSymbol | app/api/encode/route.js:34 | a symbol without a code contributes no bits |
| Encode.Post | app/api/encode/route.js:3-18 | a missing or empty text or a missing tree is answered with 400 "Text and Huffman tree are required", any other string and tree with the encoding |
| Encode.EncodeText | app/api/encode/route.js:20-39 | the encoding is a bit string for every tree; the original size is 8 bits per symbol and the compressed size is the sum of the code lengths of the text's symbols |
| Encode.JoinLength | app/api/encode/route.js:34-36 | the number of bits is the sum of the code lengths of the text's symbols |
| Encode.Sizes | app/api/encode/route.js:35-36 | the original size is 8 times the sum of the counts, and the compressed size is the sum of count times code length over the frequency rows |
| Encode.SingleLeaf | app/api/encode/route.js:20-39 | a lone-leaf tree encodes every text to no bits, with compressed size 0 |
| Encode.JoinEmptyCodes | app/api/encode/route.js:34 | when every code is empty, the encoding is empty |
| EncodedTextDisplay.CharToCodeMap | components/EncodedTextDisplay.tsx:22-35 | no tree gives `{}`, and a tree gives `Object.fromEntries` of its leaf paths, the same table the encoder uses |
| EncodedTextDisplay.BuildCharToCodeMap | components/EncodedTextDisplay.tsx:22-35 | the memoised traversal into a fresh map computes `CharToCodeMap` |
| EncodedTextDisplay.Swapped | components/EncodedTextDisplay.tsx:38 | each entry `[char, code]` becomes `[code, char]`, in order |
| EncodedTextDisplay.CodeToCharMap | components/EncodedTextDisplay.tsx:37-39 | the inverted table has no duplicate key, whatever the codes |
| EncodedTextDisplay.SwappedEntries | components/EncodedTextDisplay.tsx:37-39 | with distinct codes, the inverted table has unique keys and is the swapped entries as they are |
| EncodedTextDisplay.InversionAt | components/EncodedTextDisplay.tsx:37-39 | with distinct keys and codes, `charToCodeMap[k] == v` exactly when `codeToCharMap[v] == k` |
| EncodedTextDisplay.Inversion | components/EncodedTextDisplay.tsx:37-39 | the inversion holds for all keys and codes at once |
| EncodedTextDisplay.Known | components/EncodedTextDisplay.tsx:47 | a code that tests truthy is a key of `codeToCharMap` stored with a nonempty symbol string |
| EncodedTextDisplay.Segments | components/EncodedTextDisplay.tsx:41-53 | from any accumulated code, every segment takes at least one bit, so there are no more segments than bits read |
| EncodedTextDisplay.EncodedChars | components/EncodedTextDisplay.tsx:41-53 | no bits give no segments; otherwise the loop emits exactly `Segments(bits)` |
| EncodedTextDisplay.SegmentsGreedy | components/EncodedTextDisplay.tsx:43-52 | the emitted segments form a greedy split: they concatenate to a prefix of the bits, each is a key of `codeToCharMap` with no shorter known prefix, and no prefix of the dropped rest is known |
| EncodedTextDisplay.EmittablePrefixes | components/EncodedTextDisplay.tsx:45-51 | two emittable segments that both start the same bits are equal |
| EncodedTextDisplay.GreedyUnique | components/EncodedTextDisplay.tsx:45-51 | the greedy split of a bit string is unique |
| EncodedTextDisplay.SegmentsCharacterized | components/EncodedTextDisplay.tsx:41-53 | a list of segments is a greedy split of the bits exactly when it is what the loop emits |
| RoundTrip.CodeSeq | app/api/encode/route.js:34 | the code of each symbol of the text, one per symbol, in order |
| RoundTrip.Decode | components/EncodedTextDisplay.tsx:82 | the character shown for each hovered segment, `codeToCharMap[code]`, one per segment |
| RoundTrip.FlattenCodeSeq | app/api/encode/route.js:34 | the encoding is the concatenation of the symbols' codes |
| RoundTrip.SegmentsOfJoin | components/EncodedTextDisplay.tsx:41-53 | when every symbol's code is emittable, the display splits the encoding into exactly the symbols' codes |
| RoundTrip.CodesOfCoded | app/api/encode/route.js:21-32 | on a coded tree with distinct leaf symbols, the codes object holds the leaves' symbols and codes in tree order, with unique keys and distinct codes |
| RoundTrip.KnownIsLeafCode | components/EncodedTextDisplay.tsx:47 | a code known to `codeToCharMap` is some leaf's code |
| RoundTrip.LeafCodeKnown | components/EncodedTextDisplay.tsx:37-39 | `codeToCharMap` maps every leaf's code back to the leaf's symbols |
| RoundTrip.ProperPrefixUnknown | components/EncodedTextDisplay.tsx:47 | no proper prefix of a leaf code is known to `codeToCharMap` |
| RoundTrip.LeafCodeEmittable | components/EncodedTextDisplay.tsx:45-51 | below a parent root, every leaf code is emitted exactly when its last bit is read |
| RoundTrip.TreeRoundTrip | components/EncodedTextDisplay.tsx:41-53 | for a coded tree with distinct nonempty leaf symbols and a text over them, the display cuts the encoding into the symbols' codes and maps them back to the text's symbols |
| RoundTrip.RequestObjectOfText | app/page.tsx:95 | the object the page sends to build-tree is the counting loop's frequency object in enumeration order |
| RoundTrip.RequestObject | app/page.tsx:95 | `Object.fromEntries` of the `[char, count]` pairs has no duplicate key |
| RoundTrip.ValueSumRows | app/api/build-tree/route.js:15 | summing an object's values is summing the counts of its rows, linking the tree's root frequency to the counted table |
| RoundTrip.TextLeaves | app/api/build-tree/route.js:15-20 | the leaves built for a text have distinct one-symbol labels, and every symbol of the text has one |
| RoundTrip.PermutedDistinct | app/api/build-tree/route.js:22-46 | a tree whose leaves permute leaves with distinct symbols has distinct leaf symbols |
| RoundTrip.PermutedCover | app/api/build-tree/route.js:22-46 | every symbols string of the initial leaves labels a leaf of the tree |
| RoundTrip.PipelineLeaves | app/api/build-tree/route.js:14-47 | for a text with two or more distinct symbols, the tree has a parent at its root, distinct nonempty leaf symbols and a leaf for every symbol of the text |
| RoundTrip.PipelineRoundTrip | app/page.tsx:95-116 | for a text with two or more distinct symbols, counting, building, encoding and displaying give back one segment per symbol, each the symbol's code, and the segments decode to the text |
| RoundTrip.PipelineSingleSymbol | app/api/build-tree/route.js:35-45 | for a text with one distinct symbol, the tree is a leaf coded "", the encoding is empty and the display shows nothing, so the text is not recovered |
| RoundTrip.PipelineRootFrequency | app/page.tsx:95 | frequency is conserved: for a nonempty text the tree exists and its root frequency is the length of the text |

## Left out

- The `compressionRatio` field (app/api/encode/route.js:16) is a floating-point string built with `toFixed(2)`. Only the two sizes it is computed from are modelled.
- Request parsing and responses: `request.json()` and `NextResponse.json` are replaced by the parsed values and a `Response` datatype. JSON serialisation of the tree between the routes is the identity here.
- Frequency.CalculateFrequency: `for … of` walks code points, while the encoder's `text.split('')` walks UTF-16 code units. The model treats a text as a sequence of symbols for both, so astral-plane characters are not modelled.
- Frequency.CalculateFrequency: counts and frequencies are unbounded integers. JavaScript numbers lose precision above 2^53, which no realistic text reaches.
- Frequency.Post, Encode.Post: `text` is modelled as absent or a string, and `tree` as absent or a well-formed node. Other JSON values are not modelled. In JavaScript, a truthy non-string `text` such as `5` or `{}` makes `for … of` or `text.split` throw, an array `text` is walked element by element, and a truthy `tree` that is not a node makes `getCodes` store a code under "undefined". The page always sends a string and the tree the build-tree route returned.
- BuildTree.Post: the payload is classified as falsy, another primitive, or a plain object with numeric values. `null` counts as falsy. Arrays and objects with non-number values are not modelled.
- BuildTree.AssignCodes: `assignCodes` updates the nodes in place. The tree is a fresh structure with no sharing, so this is modelled as a function returning the recoded tree.
- Encode.GetCodes and EncodedTextDisplay.CharToCodeMap: the recursive helpers fill one shared object in place. `Encode.CodeTable.GetCodes` models that, and the two specification functions thread the object through the recursion instead.
- The upper-casing of the input (app/page.tsx:72) happens before the core and is not part of this model.
- React state, memoisation, rendering and the hover handler are not part of this model. The hover lookup `codeToCharMap[hoveredBits]` is modelled as `RoundTrip.Decode`.
- The page's error handling around `fetch` is not modelled.
- Js.Get, EncodedTextDisplay.EncodedChars: a property read looks only at the object's own properties. In JavaScript, `codeToCharMap[currentCode]` also finds inherited `Object.prototype` members such as "constructor" or "toString", so the component would emit such a string as a segment. This cannot happen in the application: `Encode.EncodeText` proves the encoded text is made of '0' and '1' only, and no inherited member's name is.
