# Approximate name matching: Levenshtein distance and closest-word search

This project models the approximate string matcher of an identity-verification
demo, found in `workshop/helpers.py`. The application reads words off a photo
ID by text recognition. It then reconciles them with the names the user typed
in, by picking the recognised word closest in edit distance to each name.

- `levenshtein(s1, s2)` computes the Levenshtein edit distance with the
  Wagner-Fischer dynamic programme, keeping only two rows of the table. It
  first swaps the arguments when `s1` is the shorter, by calling itself once,
  and answers `len(s1)` directly when `s2` is empty.
- `find_closest(text, words)` scans the candidates left to right. It compares
  lowercased copies and keeps a running best that it replaces only on a
  strictly smaller distance, so the first candidate at the minimum distance
  wins. It returns `{'word': None, 'distance': None}` for an empty list.

Files:

- `wrappers.dfy`: module `Wrappers`, the `Option` type standing for Python's `None`.
- `edit_distance.dfy`: module `EditDistances`. `EditDistance(a, b)` is the
  specification: a recursive definition on prefixes whose cases are the cells
  of the table (`Min3` of a deletion, an insertion and a substitution costing
  `SubstitutionCost`). `Row(s1, s2, i)` is row `i` of the table. Lemmas
  state that the definition is a distance and how the rows of the table are
  built.
- `helpers.dfy`: module `Helpers`. `Levenshtein` is an imperative method with
  the source's swap, early return and two nested loops over `previousRow` and
  `currentRow`, proved equal to `EditDistance`. `FindClosest` is a method with
  the source's running `closestDistance` and `closestWord`, proved to return the
  first candidate at minimum distance, as the predicate `IsFirstClosest` defines
  it. `Match` is the returned dictionary, with `Option` fields. The file also
  holds concrete examples of `find_closest` on short names.

## Model

| member | source | states |
|---|---|---|
| `Helpers.Levenshtein` | workshop/helpers.py:34-53 | The two-row table returns exactly the edit distance `EditDistance(s1, s2)`. This holds after the argument swap and the empty-string shortcut. It returns `len(s2)` when `s1` is empty and `len(s1)` when `s2` is empty. The loop invariants are `previousRow == Row(s1, s2, i)` after `i` characters of `s1`, and, inside, that `currentRow` is the first `j + 1` entries of row `i + 1`. |
| `EditDistances.FirstRow` | workshop/helpers.py:43 | The initial `range(len(s2) + 1)` is row 0 of the table: the distance from the empty prefix to `s2[:j]` is `j`. |
| `EditDistances.RowStart` | workshop/helpers.py:45 | Row `i + 1` starts with `i + 1`, the distance from `s1[:i+1]` to the empty prefix. |
| `EditDistances.Cell` | workshop/helpers.py:47-50 | One cell of the table: the distance between `s1[:i+1]` and `s2[:j+1]` is the minimum of the cell above plus one, the cell to the left plus one, and the diagonal plus `c1 != c2`. |
| `EditDistances.RowStep` | workshop/helpers.py:46-50 | Appending the cell computed from `previous_row` and `current_row` extends `current_row` by the correct next entry of row `i + 1`. |
| `EditDistances.LastRow` | workshop/helpers.py:53 | `previous_row[-1]` after the last row is the distance between the whole strings. |
| `EditDistances.Symmetric` | workshop/helpers.py:36-37 | The distance is symmetric, so the swap at the top of `levenshtein` does not change the answer. |
| `EditDistances.UpperBound` | workshop/helpers.py:34-53 | The distance is at most the length of the longer string. |
| `EditDistances.LowerBound` | workshop/helpers.py:34-53 | The distance is at least the difference of the two lengths. |
| `EditDistances.ZeroIffEqual` | workshop/helpers.py:34-53 | The distance is 0 if and only if the two strings are equal. Both directions are stated. |
| `EditDistances.Triangle` | workshop/helpers.py:34-53 | Triangle inequality: `d(a, c) <= d(a, b) + d(b, c)` for all strings. |
| `Helpers.Lower` | workshop/helpers.py:61 | Lowercasing keeps the length, leaves no ASCII capital, and changes no character that is not an ASCII capital. |
| `Helpers.LowerIdempotent` | workshop/helpers.py:61 | Lowercasing an already lowercased string changes nothing. |
| `Helpers.FindClosest` | workshop/helpers.py:56-65 | Word and distance are None exactly when `words` is empty. Otherwise, for some index `k`, the word is the original `words[k]` (not its lowercased form) and the distance is that of the lowercased pair. No candidate is closer, and every candidate before `k` is strictly farther, which is the first-occurrence tie-break of the strict `>` test. |
| `Helpers.ScanStep` | workshop/helpers.py:60-64 | One iteration keeps the running best the first closest among the candidates seen so far. The new candidate replaces it exactly when it is strictly closer, and otherwise the old best stays. |
| `Helpers.FirstClosestUnique` | workshop/helpers.py:60-64 | At most one index is the first closest, so `FindClosest`'s contract determines its result. |
| `Helpers.TieOfTwo` | workshop/helpers.py:62-64 | When two candidates are at the same distance, the earlier one is the first closest and the later one is not. |
| `Helpers.TieBreakExample` | workshop/helpers.py:60-64 | For "cat" against ["car", "bat"], both candidates are at distance 1. The first, "car", is the first closest and "bat" is not. |
| `Helpers.CaseInsensitiveExample` | workshop/helpers.py:61 | "JOHN" is at distance 0 from "john" and "john" is the first closest. |
| `Helpers.JohnExample` | workshop/helpers.py:56-65 | For "John" against ["Jon", "Johnny", "Jane"], "Jon" is at distance 1 and "Johnny" at distance 2, and "Jon" is the first closest. |

## Left out

- `make_celery` (workshop/helpers.py:7-24): task-queue and application-context configuration with no behaviour of its own.
- `save_file` (workshop/helpers.py:27-31): a filesystem write through a third-party filename sanitiser.
- `workshop/app.py` (HTTP routes, templates, database sessions) and `workshop/models.py` (an ORM schema) are not part of this model.
- Helpers.Lower: models Python's `str.lower` on ASCII letters only. Full Unicode case mapping, including mappings that change a string's length, is not modelled. The proofs about `FindClosest` use only that the same fixed function is applied to the reference and to each candidate.
- Helpers.JohnExample: does not state that "Jane" is at distance exactly 3 from "John". It shows only that "Jane" is not closer than "Jon", which is what the result needs.
- Memory use: the model keeps the source's two rows, but the bound on memory, O(min(len(s1), len(s2))), is not stated as a property.
- Python's dynamic typing: the inputs are taken to be strings and a sequence of strings.
