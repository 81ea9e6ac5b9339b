# Bracelet configurator: bead-list editor and image public id

This project models, in Dafny, the two pieces of self-contained logic of the
bracelet-design application:

- **The bead-list editor of `BraceletConfigurator`** (`bracelet_configurator.dfy`,
  module `BraceletConfigurator`). The component keeps a bead `count`, a list
  of beads `{id, color, shape}`, an id counter (`idRef.current`, here the
  field `last`: the largest id handed out so far) and the `selectedIndex`
  (a number or null). The class `Editor` holds this state. Its methods are
  the component's handlers: the count-sync effect, the slider and `+`/`-`,
  `addBead`/`removeBead`, click and Enter/Space selection, the arrow keys,
  `updateBead`, Reset and Duplicate. Each method is specified by a pure
  function of the old state (`Resized`, `ClampSelection`, `UpdateAt`,
  `Duplicated`, `ArrowRight`, `ArrowLeft`, `RemovedCount`, `AddedCount`).
  The lemmas beside those functions prove what the component relies on:
  distinct ids, a kept prefix, an untouched rest, arrow keys that undo each
  other and wrap around, and a count floor of 3. The class invariant
  `Editor.Valid` states that the list has `count` beads, that ids are
  distinct and no larger than the counter, that there is at least one bead,
  and that the selection is null or a position of the list, in [0, count).
  Every handler preserves it.
  The same module states the bead-diameter rule of the preview: the
  circumference share per bead times 0.78, clamped to [10, 56] px. `Math.PI`
  is a parameter `pi > 0`.
- **The public id extraction of `deleteImage`** (`upload_utils.dfy`, module
  `UploadUtils`). It is
  `imageUrl.split('/').slice(-2).join('/').split('.')[0]`, written with
  JavaScript's `split` (empty fields kept, always at least one field),
  `slice(-2)` and `join`. `Split` and `Join` are proved to be inverse
  to each other in both directions. The id has no `.` and at most one `/`.
  It is a prefix of the last two segments joined by `/`, and it stops at
  the first `.` in them.

Each handler is one atomic step. A count change is followed at once by the
count-sync effect. The constructor is the initial state plus the sync effect's
first run on mount. That run leaves the beads alone and clamps the selection.
The component needs at least one bead to start with: React renders before
it runs effects, and the first render of the selected-bead panel reads
`beads[0].color` (src/components/BraceletConfigurator.tsx:310), which fails on
an empty list. Afterwards the count never drops below 1: the slider starts at
3 and `removeBead` stops at 3.

The ring radius is the one the component computes, `max(120, 560/2 - 120) = 160`.
The component raises no error for a count below 3: the divisor is `max(3, count)`,
and the model follows the code.

## Model

| member | source | states |
|---|---|---|
| `BraceletConfigurator.InitialBeads` | src/components/BraceletConfigurator.tsx:27-29 | the initial list has `initial` white round beads whose ids are distinct and lie in 1..initial |
| `BraceletConfigurator.Editor.constructor` | src/components/BraceletConfigurator.tsx:24-30 | for at least one bead, count and counter start at `initial`, the beads are the initial ones, the selection is 0 clamped by the mount-time sync (so 0); the invariant holds |
| `BraceletConfigurator.FreshBeads` | src/components/BraceletConfigurator.tsx:38-41 | the k appended beads are white, round and numbered last+1 .. last+k in order |
| `BraceletConfigurator.Resized` | src/components/BraceletConfigurator.tsx:33-45 | after the sync the list has exactly `count` beads; it is untouched if the lengths matched, the first `count` old beads if it was longer, and the old list as a prefix followed by default beads with consecutive fresh ids if it was shorter |
| `BraceletConfigurator.ResizedLast` | src/components/BraceletConfigurator.tsx:38-40 | the id counter never decreases, grows exactly when beads were appended, and then equals the id of the last appended bead |
| `BraceletConfigurator.ResizedLastIsLastId` | src/components/BraceletConfigurator.tsx:38-40 | after appending, the counter equals the id of the last bead of the synced list |
| `BraceletConfigurator.ResizedIds` | src/components/BraceletConfigurator.tsx:36-42 | if the old ids are distinct and at most the counter, the synced ids are distinct and at most the new counter (new ids exceed every old one) |
| `BraceletConfigurator.ClampSelection` | src/components/BraceletConfigurator.tsx:47 | null stays null; a selection is left alone exactly when it is below `count`; one at or past `count` becomes `count - 1`; the result is below `count` and never larger than the input |
| `BraceletConfigurator.ClampSelectionInRange` | src/components/BraceletConfigurator.tsx:47 | on a non-empty list a non-negative selection is clamped into [0, count) |
| `BraceletConfigurator.ClampSelectionIdempotent` | src/components/BraceletConfigurator.tsx:47 | clamping twice to the same count is clamping once |
| `BraceletConfigurator.Editor.SyncCount` | src/components/BraceletConfigurator.tsx:32-48 | the effect's loop appends fresh default beads one id at a time, or the list is truncated; the new state is `Resized`/`ResizedLast`/`ClampSelection` of the old one, and the invariant is re-established |
| `BraceletConfigurator.Editor.SetCount` | src/components/BraceletConfigurator.tsx:283-290 | a slider change sets the count and syncs the list and the selection to it |
| `BraceletConfigurator.Merge` | src/components/BraceletConfigurator.tsx:80 | `{...b, ...partial}`: each field of the patch overwrites, each absent field (the id included) keeps the bead's value |
| `BraceletConfigurator.UpdateAt` | src/components/BraceletConfigurator.tsx:79-81 | the length is kept, every bead at another position is unchanged, and the bead at `index` (if in range) is merged with the patch |
| `BraceletConfigurator.UpdateAtKeepsIds` | src/components/BraceletConfigurator.tsx:79-81 | a patch without an id keeps every id, so distinctness and bounds of ids survive |
| `BraceletConfigurator.UpdateAtIdempotent` | src/components/BraceletConfigurator.tsx:79-81 | applying the same patch twice at the same position equals applying it once |
| `BraceletConfigurator.ResetMakesDefault` | src/components/BraceletConfigurator.tsx:369 | Reset makes the bead white and round with its id kept, and leaves all others alone |
| `BraceletConfigurator.Editor.UpdateBead` | src/components/BraceletConfigurator.tsx:79-81 | the list becomes `UpdateAt` of the old list; count, counter and selection are unchanged and the invariant holds |
| `BraceletConfigurator.Editor.Reset` | src/components/BraceletConfigurator.tsx:368-373 | the list becomes the Reset patch applied at `selectedIndex ?? 0` |
| `BraceletConfigurator.RemovedCount` | src/components/BraceletConfigurator.tsx:86-88 | the new count is at least 3, is one less above the floor, and is 3 at or below 4 |
| `BraceletConfigurator.AddedCount` | src/components/BraceletConfigurator.tsx:83-85 | the count grows by exactly one, with no upper cap |
| `BraceletConfigurator.AddRemoveInverse` | src/components/BraceletConfigurator.tsx:83-88 | add after remove restores a count above 3; remove after add restores a count of at least 3 |
| `BraceletConfigurator.Editor.AddBead` | src/components/BraceletConfigurator.tsx:83-85 | one white round bead with id counter+1 is appended, the counter grows by one, the selection stays |
| `BraceletConfigurator.Editor.RemoveBead` | src/components/BraceletConfigurator.tsx:86-88 | the count becomes `max(3, count-1)` and the list, the counter and the selection are synced to it; above the floor the last bead is dropped and the counter stays |
| `BraceletConfigurator.Editor.Select` | src/components/BraceletConfigurator.tsx:90-94 | Enter/Space (or a click) on bead i selects i |
| `BraceletConfigurator.JsRem` | src/components/BraceletConfigurator.tsx:95-96 | JavaScript `%`: the remainder differs from the dividend by a multiple of n, lies in [0, n) for a non-negative dividend and in (-n, 0] for a negative one (truncating division) |
| `BraceletConfigurator.ArrowRight` | src/components/BraceletConfigurator.tsx:95 | from null the first bead (0) is selected; for any selection of at least -1 the new selection is in [0, count) |
| `BraceletConfigurator.ArrowLeft` | src/components/BraceletConfigurator.tsx:96 | from null the last bead (count - 1) is selected; for any selection of at least 1-count the new selection is in [0, count) |
| `BraceletConfigurator.ArrowRightStep` | src/components/BraceletConfigurator.tsx:95 | inside the list ArrowRight moves to the next bead and wraps from the last to the first |
| `BraceletConfigurator.ArrowLeftStep` | src/components/BraceletConfigurator.tsx:96 | inside the list ArrowLeft moves to the previous bead and wraps from the first to the last |
| `BraceletConfigurator.ArrowsInverse` | src/components/BraceletConfigurator.tsx:95-96 | Right then Left, and Left then Right, return to the starting bead |
| `BraceletConfigurator.Editor.MoveRight` | src/components/BraceletConfigurator.tsx:95 | the selection becomes `ArrowRight` of the old one; the invariant holds |
| `BraceletConfigurator.Editor.MoveLeft` | src/components/BraceletConfigurator.tsx:96 | the selection becomes `ArrowLeft` of the old one; the invariant holds |
| `BraceletConfigurator.Duplicated` | src/components/BraceletConfigurator.tsx:356-358 | one bead longer; the beads up to the selected one and those after it are kept in place; at selected+1 sits a bead with the new id and the selected bead's colour and shape |
| `BraceletConfigurator.DuplicatedRemoveCopy` | src/components/BraceletConfigurator.tsx:358 | taking the inserted copy out gives the old list back: the relative order of all other beads is kept |
| `BraceletConfigurator.DuplicatedIds` | src/components/BraceletConfigurator.tsx:357-358 | with the id counter+1 the duplicated list still has distinct ids bounded by the new counter |
| `BraceletConfigurator.Editor.Duplicate` | src/components/BraceletConfigurator.tsx:353-361 | counter and count grow by one, the list becomes `Duplicated` of the old one, and the sync effect that follows changes nothing; the selection stays |
| `BraceletConfigurator.RingRadius` | src/components/BraceletConfigurator.tsx:51-55 | the ring radius of the 560 px preview is 160 |
| `BraceletConfigurator.Divisor` | src/components/BraceletConfigurator.tsx:59 | the divisor `max(3, count)` is at least 3 and at least `count`, and equals `count` from 3 on |
| `BraceletConfigurator.RawDiameter` | src/components/BraceletConfigurator.tsx:58-59 | the raw diameter is positive, and the raw diameters of all `max(3, count)` slots add up to 0.78 of the circumference |
| `BraceletConfigurator.BeadDiameter` | src/components/BraceletConfigurator.tsx:57-61 | the diameter always lies in [10, 56] and equals the raw share whenever that already lies there |
| `BraceletConfigurator.BeadDiameterMonotone` | src/components/BraceletConfigurator.tsx:57-61 | more beads never give a larger diameter |
| `BraceletConfigurator.BeadDiameterClampRanges` | src/components/BraceletConfigurator.tsx:57-61 | for pi in [3.14, 3.15] every count up to 13 gets 56 px and every count from 79 on gets 10 px |
| `UploadUtils.Occurrences` | src/lib/uploadUtils.ts:22 | the count of a character is at most the length and is 0 exactly when the character is absent |
| `UploadUtils.Split` | src/lib/uploadUtils.ts:22 | `split` gives at least one field, no field contains the separator, and there is one field more than separators |
| `UploadUtils.Join` | src/lib/uploadUtils.ts:22 | `join` starts with the first element and puts a separator right after it when there is a second; `JoinSplit`, `SplitJoin` and `JoinOccurrences` characterise it fully |
| `UploadUtils.JoinSplit` | src/lib/uploadUtils.ts:22 | joining the fields of a split gives back the string |
| `UploadUtils.SplitJoin` | src/lib/uploadUtils.ts:22 | splitting the join of separator-free fields gives back the fields |
| `UploadUtils.LastTwo` | src/lib/uploadUtils.ts:22 | `slice(-2)` keeps the last two elements, or the whole list when it has fewer than two |
| `UploadUtils.FirstField` | src/lib/uploadUtils.ts:22 | `split(sep)[0]` is a prefix without the separator that ends exactly at the first separator (the whole string when there is none) |
| `UploadUtils.FirstFieldCut` | src/lib/uploadUtils.ts:22 | the first field of a split is a prefix of the string cut at the first separator, and a string without separator splits into itself |
| `UploadUtils.JoinOccurrences` | src/lib/uploadUtils.ts:22 | joining n separator-free fields yields exactly n-1 separators |
| `UploadUtils.PublicId` | src/lib/uploadUtils.ts:22 | the public id contains no `.` and at most one `/` |
| `UploadUtils.PublicIdIsPrefix` | src/lib/uploadUtils.ts:22 | the id is a prefix of the last two `/`-segments joined by `/`, cut at its first `.` |
| `UploadUtils.PublicIdExact` | src/lib/uploadUtils.ts:22 | if the last two segments contain no `.`, the id is exactly `seg[n-2] + "/" + seg[n-1]` |
| `UploadUtils.PublicIdWithoutSlash` | src/lib/uploadUtils.ts:22 | a URL without `/` yields the whole URL up to its first `.` |
| `UploadUtils.PublicIdIgnoresFolders` | src/lib/uploadUtils.ts:22 | everything before the last two segments has no influence on the id |
| `UploadUtils.PublicIdOfDeliveryUrl` | src/lib/uploadUtils.ts:22 | a URL `.../folder/name.ext` yields `folder/name` |

## Left out

- Bead positions (src/components/BraceletConfigurator.tsx:65-76): `Math.cos`/`Math.sin` and `toFixed(3)` rounding are floating-point trigonometry; they are not modelled.
- `BeadDiameter`: computed over exact reals with `pi` as a parameter, not in IEEE doubles; `Math.PI` is only known to lie in [3.14, 3.15] where a lemma needs a value.
- `exportPNG`, all JSX rendering, styling and the palette: DOM, canvas and URL I/O or presentation.
- React scheduling (batching, effect timing, StrictMode's double call of updaters, the `setCount` nested in the Duplicate updater): every handler is one atomic step followed by the count-sync effect.
- `Editor.UpdateBead`: requires a patch without an id, because every caller in the component passes only a colour and/or a shape; `UpdateAt` itself takes any patch.
- `Editor.Duplicate`: requires a selection inside the list, because the button is rendered only while a bead is selected and that panel reads `beads[selectedIndex]`.
- `Editor.Select`, `Editor.MoveRight`, `Editor.MoveLeft`: require a bead to exist at the position (non-empty list), because the handlers are attached only to rendered beads.
- `Editor.constructor`: requires `initial >= 1`. With `initial = 0` the component fails on its first render (it reads `beads[0].color` of an empty list) before any handler can run, so there is no state to model; a negative or fractional `initial` prop is not modelled either.
- `Editor.SetCount`, `Editor.SyncCount`: require a count of at least 1 (and a selection that is null or non-negative), because the slider's minimum and the floor of `removeBead` are 3 and the constructor starts with at least one bead.
- `deleteImage` around the public id: the `cloudinary.uploader.destroy` call and the swallowed error, `uploadBase64Image`, and a non-string `imageUrl` are I/O or foreign code and are not modelled.
- The API routes, the pendant components, the pages and the design configurator are HTTP glue, static SVG or UI and are not part of this model.
