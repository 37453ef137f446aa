# CVSS v3.1 base-vector toolkit, modelled in Dafny

This project models the core of a small Python toolkit for CVSS v3.1 base
vectors:

- **`cvssutils.py`** holds the vector utilities. `parameter`, `CVSS_string` and `CVSS_list` serialise the eight
  base metrics AV, AC, PR, UI, S, C, I and A into a string such as
  `CVSS:3.1/AV:N/AC:L/PR:N/UI:N/S:C/C:L/I:L/A:L`. `CVSS_values` parses such a
  string back into its values. `CVSS_modify_vector` and `CVSS_modify` overlay a patch on a vector, where `"X"` means
  "keep". `CVSS_modify_base_metrics` builds such a patch from a
  `MAV:L/MC:H`-style string of modified base metrics.
- **`generate.py`** holds the metric alphabets and `generate_all_CVSSstrings`. That
  function runs eight nested loops and reports every base vector, optionally
  patched.

There are three modules:

- `Strings` models Python's `str.split` for a one-character separator, with `Join` as its inverse.
- `CvssUtils` models `cvssutils.py`.
- `Generate` models `generate.py`.

Python's `IndexError` (from `s[1]`, `original[index]`, and `params[k]` for the
first missing `k`) becomes
`Failure(IndexError)` of a `Result` datatype. Each loop of the source is a
method proved equal to a prefix-recursive function, and the lemmas are stated
about those functions:

- `CvssValues`
- `CvssModifyVector`
- `CvssModifyBaseMetrics`, which fills an `array` in place as the source fills its list
- the generator

What the generator prints becomes a `Row` per iteration. When patching a
vector raises, the exception ends the whole run, and the generator's result
is that `Failure`.

Parsing with `CVSS_values` is permissive:

- `CVSS_values` does not check that there are eight values.
- It accepts a segment with more than one `:` and keeps the text between the first and second `:`.
- It raises only on a segment without `:`.

## Model

| member | source | states |
|---|---|---|
| Strings.Split | cvssutils.py:65-67 | `str.split`: at least one field; no field contains the separator; two or more fields exactly when the separator occurs; otherwise the string itself |
| Strings.JoinSplit | cvssutils.py:65 | joining the fields of a split with the separator gives back the string |
| Strings.SplitJoin | cvssutils.py:96 | splitting the join of separator-free parts gives back the parts |
| Strings.SplitPair | cvssutils.py:67-68 | `a:b` with no `:` in `a` or `b` splits into exactly `[a, b]` |
| CvssUtils.VectorString | cvssutils.py:27-38 | every vector string starts with the preamble `CVSS:3.1/` |
| CvssUtils.WrittenFields | cvssutils.py:18-25 | each parameter is `name:value` followed by the separator, except the last: the text after `k` parameters is the first `k + 1` fields joined by `/` plus a trailing `/` until the eighth |
| CvssUtils.SplitVectorString | cvssutils.py:27-38 | the vector string of separator-free values splits at `/` into the version field `CVSS:3.1` and the fields `AV:v0` … `A:v7`, in canonical order |
| CvssUtils.FieldsJoin | cvssutils.py:18-25 | the version field and the first `k` parameter fields, with a `/` between each two, are the join of those fields |
| CvssUtils.VectorStringLayout | cvssutils.py:27-38 | for any eight values, the vector string is the version field and the eight `CODE:value` fields joined by `/`, with no trailing separator |
| CvssUtils.VectorList | cvssutils.py:40-52 | `CVSS_list` succeeds exactly on lists of at least eight values and then equals `CVSS_string` of the first eight; a shorter list raises |
| CvssUtils.VectorStringInjective | cvssutils.py:27-38 | distinct separator-free value lists give distinct vector strings |
| CvssUtils.Values | cvssutils.py:60-70 | parsing fails exactly when some `/`-segment has no `:`; otherwise the result has one value per segment after the first, value `k` being the second `:`-field of segment `k + 1` |
| CvssUtils.CvssValues | cvssutils.py:60-70 | the parsing loop computes `Values`, including the failure on a segment without `:` |
| CvssUtils.ValuesOfLayout | cvssutils.py:60-70 | a string that splits into the layout of `v` parses to `v` |
| CvssUtils.ValuesOfVectorString | cvssutils.py:60-70 | `CVSS_values(CVSS_string(v)) == v` for separator-free values |
| CvssUtils.ValuesOfVectorList | cvssutils.py:40-70 | `CVSS_values(CVSS_list(v)) == v` for eight separator-free values |
| CvssUtils.VectorListOfValues | cvssutils.py:40-70 | `CVSS_list(CVSS_values(s)) == s` for every string `CVSS_list` produces from separator-free values |
| CvssUtils.ModifyVector | cvssutils.py:72-87 | the merge fails exactly when an `"X"` sits beyond the end of the original; otherwise it has the patch's length and takes each patch entry other than `"X"`, and the original value where the entry is `"X"` |
| CvssUtils.CvssModifyVector | cvssutils.py:72-87 | the loop with its explicit index computes `ModifyVector`, including the `IndexError` |
| CvssUtils.ModifyVectorAllKeep | cvssutils.py:79-85 | an all-`"X"` patch returns the original's prefix of the patch's length |
| CvssUtils.ModifyVectorNoKeep | cvssutils.py:79-81 | a patch without `"X"` is returned unchanged |
| CvssUtils.ModifyCanonical | cvssutils.py:89-91 | patching the vector string of eight separator-free values with an eight-entry patch gives the vector string of the merged values |
| CvssUtils.ModifyAllKeep | cvssutils.py:89-91 | the patch of eight `"X"` leaves a canonical vector string unchanged |
| CvssUtils.ModifyNoKeep | cvssutils.py:89-91 | a patch without `"X"` replaces the values of any parseable vector |
| CvssUtils.ExampleMerge | cvsstest.py:40-44 | merging `L,X,X,X,X,H,H,H` into `N,L,N,N,C,L,L,L` gives `L,L,N,N,C,H,H,H` |
| CvssUtils.ModifyExample | cvsstest.py:40-44 | patching the vector string of `N,L,N,N,C,L,L,L` with `L,X,X,X,X,H,H,H` gives the vector string of `L,L,N,N,C,H,H,H` |
| CvssUtils.StepOk | cvssutils.py:97-103 | one iteration raises exactly when the segment is a known code with no `:value` |
| CvssUtils.StepMeaning | cvssutils.py:97-103 | an iteration that does not raise sets the position its segment's code names to the segment's value and keeps every other position |
| CvssUtils.CvssModifyBaseMetrics | cvssutils.py:93-104 | the loop that fills the eight-entry list in place computes `BaseMetrics`, including the `IndexError` |
| CvssUtils.PatchOk | cvssutils.py:93-104 | building the patch fails exactly when some segment is a bare known code |
| CvssUtils.PatchUnnamed | cvssutils.py:94 | a position no segment names stays `"X"` |
| CvssUtils.PatchNamed | cvssutils.py:100-103 | a position takes the value of the last segment naming it, and that segment holds a `:` |
| CvssUtils.PatchMeaning | cvssutils.py:93-104 | all three together: the failure condition, the unnamed positions stay `"X"`, and the last naming segment wins |
| CvssUtils.PatchIgnoresUnknown | cvssutils.py:100 | inserting a segment whose code is not a known modified metric changes nothing |
| CvssUtils.StepSwap | cvssutils.py:97-103 | two iterations on segments with different codes commute |
| CvssUtils.PatchSwap | cvssutils.py:97-103 | exchanging two adjacent segments with different codes builds the same patch |
| CvssUtils.BaseMetricsIgnoresUnknown | cvssutils.py:93-104 | a `/`-pair with an unknown code can be dropped from the overlay string without changing the result |
| CvssUtils.BaseMetricsSwap | cvssutils.py:93-104 | two adjacent `/`-pairs with different codes can be exchanged in the overlay string without changing the result |
| CvssUtils.ExampleSegments | cvsstest.py:51 | `MAV:L/MC:H/MI:H/MA:H` splits into its four pairs |
| CvssUtils.KnownPair | cvssutils.py:95-103 | a `MCODE:value` segment with a known code sets exactly that code's position, to `value` |
| CvssUtils.PatchExample | cvsstest.py:48-53 | the four pairs build the patch `L,X,X,X,X,H,H,H` |
| CvssUtils.BaseMetricsExample | cvsstest.py:48-53 | the overlay `MAV:L/MC:H/MI:H/MA:H` is the patch `L,X,X,X,X,H,H,H`, the same patch the test lists by hand |
| Generate.AlphabetFacts | generate.py:15-31 | eight alphabets, each listing distinct values without `/` or `:` |
| Generate.CombinationCount | generate.py:35-51 | the loops visit 4·2·3·2·2·3·3·3 = 2592 combinations |
| Generate.ExpandLength | generate.py:36-43 | the loops from a level inwards visit the product of the remaining alphabet sizes |
| Generate.ExpandMembers | generate.py:36-43 | the loops from a level inwards visit exactly the completions of the fixed outer values |
| Generate.CombinationsComplete | generate.py:36-43 | a list is visited exactly when it has eight entries, each from its metric's alphabet |
| Generate.ExpandOrdered | generate.py:36-43 | the loops from a level inwards visit their combinations in nested-loop order |
| Generate.CombinationsOrdered | generate.py:36-43 | all combinations come in nested-loop order, AV outermost, each alphabet in its listed order |
| Generate.CombinationsDistinct | generate.py:36-43 | no combination is visited twice |
| Generate.CollectConcat | generate.py:36-50 | running the body over one list of combinations and then another is the run over both, and a raise in the first run ends it |
| Generate.CollectOk | generate.py:36-50 | a run completes exactly when the body raises on none of its combinations, and then row `n` is the body's row for combination `n` |
| Generate.ExpandWithAppend | generate.py:36-43 | a loop over `xs + ys` visits the combinations of the loop over `xs`, then those of the loop over `ys` |
| Generate.Report | generate.py:44-50 | the innermost body reports the vector string and, when the patch is non-empty, the patched vector; it raises when patching raises |
| Generate.GenerateFrom | generate.py:36-50 | the loops from level `prefix` inwards run the body over every completion of `prefix` in loop order, stop at the first raise, and otherwise count one per row |
| Generate.GenerateAllCvssStrings | generate.py:33-51 | apart from the scoring call, the generator raises exactly for a non-empty patch shorter than eight or with an `"X"` past the eighth entry; otherwise it reports one row per combination, in loop order, and counts 2592 rows |
| Generate.CombinationPlain | generate.py:15-29 | every combination is eight values without `/` or `:` |
| Generate.ModifyFails | cvssutils.py:89-91 | patching the vector string of eight separator-free values raises exactly for a non-empty patch shorter than eight or with an `"X"` past the eighth entry |
| Generate.RowOfOk | generate.py:44-46 | apart from the scoring call, one iteration raises exactly for such a patch |
| Generate.GeneratedFails | generate.py:33-50 | apart from the scoring call, the run raises exactly for such a patch, and then already on the first combination |
| Generate.GeneratedRow | generate.py:36-50 | in a completed run, row `n` is the body's row for combination `n` |
| Generate.RowsCanonical | generate.py:44-49 | in a completed run, every row's vector is the eight `CODE:value` fields joined by `/` after the version; parsing it gives back the combination; the patched vector is present exactly when a patch was given |
| Generate.RowsDistinct | generate.py:44 | a completed run never reports the same vector string twice |
| Generate.RowOfPatched | generate.py:44-46 | with the patch `L,X,X,X,X,H,H,H`, one iteration reports the vector and the vector with AV `L` and C, I, A `H` |
| Generate.RowsPatched | generate.py:44-56 | with the script's patch `L,X,X,X,X,H,H,H`, the run completes, and each row's patched vector has AV `L` and C, I, A `H`, and keeps AC, PR, UI and S |

## Left out

- `CVSS_score` (cvssutils.py:54-58) calls an external scoring library and works in floating point. Rows carry no scores.
- Printing is left out: the lines `generate_all_CVSSstrings` prints, the total it prints, and both scripts' `__main__` blocks. Rows and the returned count take their place.
- `CVSS.py` is not part of this model. It covers the command line, fetching a vulnerability record over the network, and reading the `baseMetricV3` metrics from it.
- `cvsstest.py` appears only as the source of the concrete examples.
- All `IndexError`s are one `Failure(IndexError)`. The model does not say which index raised.
- Values containing `/` or `:` do not survive a round trip, in the code as in the model. The round-trip lemmas therefore require `AllPlain`. Every alphabet value meets it (`Generate.AlphabetFacts`).
- Metric values are not checked against their alphabets, as in the code.
- CvssUtils.Parameter: no contract of its own. What it writes is stated through `WrittenFields` and `SplitVectorString`.
- CvssUtils.Modify: no contract of its own, because it composes `Values`, `ModifyVector` and `VectorList`. Its meaning is stated by `ModifyCanonical`, `ModifyAllKeep`, `ModifyNoKeep` and `ModifyExample`.
- CvssUtils.BaseMetrics: its own ensures states only the length. Its meaning is stated by `PatchMeaning` over the `/`-segments, and by the two overlay-string lemmas.
- Generate.GenerateAllCvssStrings, Generate.RowOfOk, Generate.GeneratedFails: a raise from the scoring call (a patched value the scoring library rejects, such as the patch `Z,X,X,X,X,X,X,X`) is not modelled, because scoring is left out. The failure condition `MergeFails` covers the merge only.
- Generate.GenerateFrom: the eight nested `for` loops are modelled as one loop per level, with a recursive call for the next level. The visiting order, the rows, the count and the point where a raise stops the run are the same.
