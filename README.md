# Best-match selection over feature-matched candidate tiles

`get_images.py` looks for the tile of a larger scene that best matches a
query image. It detects ORB features in the query, then walks the candidate
files of a folder (all `.png`, then all `.jpg`, then all `.jpeg`). For each
candidate it loads the image, detects features, and matches them against the
query with a cross-checked Hamming brute-force matcher. It sorts the matches by
distance and writes a rendering of the 20 closest. It keeps a best-so-far
record of the candidate with the most matches. At the end it reports either
"no satisfactory match" or the best candidate, whose 30 closest matches are
drawn.

This project models the part of that script that the script itself decides:
the selection pass and its outcome. The feature detector and the matcher are
library calls, so their outputs are inputs here. A candidate is a path plus one
of:
- `Unreadable`: the image could not be loaded;
- `Loaded(image, keypoints, None)`: loaded, but no descriptor set;
- `Loaded(image, keypoints, Some(matches))`: the matcher's output. Each match
  carries two descriptor indices and a natural Hamming distance.

Modules:
- `Matches` (`matches.dfy`): the match record, the stable sort by distance and
  the top-K truncations.
- `Paths` (`paths.dfy`): the base name of a candidate path and the output file
  paths.
- `Selection` (`selection.dfy`): the best-so-far record and one loop step. It
  holds the loop as a fold over the candidates, and an independent "first
  maximum" definition that the fold is proved equal to. `SelectBest` runs the
  loop imperatively, with `continue` for skipped candidates, and then the
  report branch. Its contract ties it to both definitions.

The sort is pinned down completely. `SortByDistance` returns a sorted
permutation of its input. `SortIsStable` shows that the subsequence of matches
at each distance is unchanged. `SortByDistanceIsTheStableSort` shows that any
sorted sequence with those same subsequences equals `SortByDistance`'s result.

## Model

| member | source | states |
|---|---|---|
| `Matches.SortByDistance` | get_images.py:59 | the result is sorted by non-decreasing distance and is a permutation (same multiset, same length) of the matcher's output |
| `Matches.SortIsStable` | get_images.py:59 | for every distance, the matches at that distance appear in the sorted list in the matcher's order (stability of `sorted`) |
| `Matches.SortedStableUnique` | get_images.py:59 | two sorted lists that agree, distance by distance, on which matches they hold and in what order are equal |
| `Matches.SortByDistanceIsTheStableSort` | get_images.py:59 | any sorted list that keeps the matcher's order among equal distances is exactly the result of the sort |
| `Matches.SortKeepsIndicesValid` | get_images.py:57-59 | if every match of the matcher's output indexes real query and candidate descriptors, so does every match of the sorted list |
| `Matches.Take` | get_images.py:64 | slicing `[:k]` yields a prefix of length `min(k, len)`: no padding and no error when there are fewer than `k` |
| `Matches.TakeKeepsClosest` | get_images.py:63-64 | on a sorted list, no drawn match is farther than any match that was cut off |
| `Matches.BestDrawn` | get_images.py:94 | the guarded expression `best[:30] if len(best) >= 30 else best` equals plain `best[:30]` |
| `Paths.OutputPath` | get_images.py:68 | `os.path.join(output_folder, prefix + name)`, used for both output files (here and at get_images.py:98), starts with `matching_results/`, is as long as the folder, one separator and the file name, and has the file name as its base name whenever that holds no '/' |
| `Paths.BaseName` | get_images.py:83 | the base name holds no '/', is a suffix of the path, and is either the whole path or preceded by a '/' (so it is the part after the last '/') |
| `Selection.Record` | get_images.py:78-83 | the record of a new best takes count, image, matches, keypoints and base name all from the same candidate; its matches are exactly the stable sort by distance of the matcher's output (so sorted and a permutation), and its count is that candidate's match count |
| `Selection.Step` | get_images.py:44-83 | one iteration: a skipped candidate leaves the record unchanged, a candidate with no more matches than the record leaves it unchanged, a candidate with strictly more matches replaces it with that candidate's record, the count never decreases, and a coherent record stays coherent |
| `Selection.Fold` | get_images.py:37-83 | after any number of iterations the record is coherent: empty with count 0 and name "", or a positive count equal to the length of its sorted match list |
| `Selection.MaxCount` | get_images.py:78-79 | an upper bound on every processed candidate's match count that is 0 or attained by some processed candidate |
| `Selection.FirstBest` | get_images.py:78-83 | the independent reference: None exactly when every processed candidate has zero matches; otherwise the index of a processed candidate with a positive count that no candidate exceeds and every earlier candidate falls short of |
| `Selection.Expected` | get_images.py:37-83 | the reference record's count is the maximum match count |
| `Selection.FoldIsFirstMaximum` | get_images.py:37-83 | the loop's final record is the initial one when no processed candidate has a match, and otherwise the record of the first candidate with the largest count (first seen wins ties, from the strict `>`) |
| `Selection.BestCountIsMaximum` | get_images.py:78-79 | the final `best_match_count` is the maximum count over the processed candidates, or 0 if there are none |
| `Selection.NoMatchExactlyWhenNoCount` | get_images.py:88-89 | `best_image is None` exactly when there are no candidates, every one is skipped, or every processed one has zero matches |
| `Selection.PngWinsTies` | get_images.py:31-33 | with the listing order png, jpg, jpeg: when a png candidate reaches the maximum, the chosen candidate is a png at or before it |
| `Selection.SkipLeavesRecord` | get_images.py:46-54 | a candidate that fails to load or has no descriptors leaves every best-so-far field unchanged |
| `Selection.CountNeverDecreases` | get_images.py:78-79 | the best count after any prefix of the candidates is at most the best count after all of them |
| `Selection.RenderingDrawsClosest` | get_images.py:63-69 | the rendering `RenderingOf` builds for a processed candidate is saved at exactly `OutputPath("matches_", name)`, that is `matching_results/matches_<name>` with nothing between folder and file name, shows that candidate's own image and keypoints, and draws the first `min(20, count)` matches of the same stably sorted list the record keeps, in order |
| `Selection.Renders` | get_images.py:44-69 | the loop writes at most one rendering per candidate |
| `Selection.RendersCountProcessed` | get_images.py:44-69 | the loop writes exactly one rendering per processed candidate |
| `Selection.RendersCoverProcessed` | get_images.py:44-69 | every processed candidate's rendering is written, right after those of the processed candidates listed before it |
| `Selection.RendersFromProcessed` | get_images.py:44-69 | every rendering written is the rendering of some processed candidate |
| `Selection.RendersWithinLimit` | get_images.py:63-65 | every rendering the loop writes is sorted by distance and draws at most 20 matches |
| `Selection.Report` | get_images.py:88-100 | "no satisfactory match" exactly when the record is empty; otherwise the best name and count, the path `matching_results/best_match_<name>`, the best candidate's own image and keypoints, and the first `min(30, count)` of its sorted matches |
| `Selection.SelectBest` | get_images.py:37-100 | the loop's record equals both the fold and the first-maximum reference, the renderings are those of the processed candidates in order, the outcome is the report of the record, and the outcome is "no satisfactory match" exactly when no processed candidate has a match |

## Left out

- ORB keypoint detection and descriptor extraction (get_images.py:21-22, 50): a foreign library call. Keypoints and the descriptor-set presence are inputs. A keypoint is reduced to its location; its size, angle and response are not modelled.
- The cross-checked brute-force matcher (get_images.py:27, 57): a foreign library call. Its output is an input, taken to have natural Hamming distances. That its indices are valid is an optional hypothesis of `Matches.SortKeepsIndicesValid`.
- Image loading and grey conversion (get_images.py:15, 18, 45, 49): `Unreadable` stands for a failed load. Pixels are never inspected.
- The folder listing (get_images.py:31-33): candidates are a given sequence. Only the png, jpg, jpeg concatenation order is used, in `Selection.PngWinsTies`. The order within each extension comes from the file system and is not modelled.
- Directory creation, drawing pixels, writing files and windows (get_images.py:12, 65, 69, 85, 95, 99): a rendering is modelled as its target path, image, keypoints and drawn match list.
- The fatal error when the query image is missing (get_images.py:16-17), and all `print` logging.
- Floating-point match distances: distances are naturals, as Hamming distances are.
- `Paths.BaseName` models POSIX `os.path.basename` only ('/' as the sole separator).
- `Selection.SelectBest` keeps the query's image and keypoints out of each rendering, since they are the same for every candidate.
- The script matches candidates one after another. There is no concurrency to model.

Two behaviours of the script that the model keeps as written:
- A candidate without a descriptor set is skipped (get_images.py:53-54). It
  gets no rendering and never touches the record; it does not count as a
  candidate with zero matches.
- The script sorts the matches itself, after the matcher returns
  (get_images.py:59).
