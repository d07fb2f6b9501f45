# Sequence algorithms of python_utils/utils.py, in Dafny

This project models the algorithmic part of `python_utils/utils.py` and
proves what it promises:

- **Merge sort** (`merge_sort`, `merge`) — `sorting.dfy`, module `Sorting`.
  `merge` is a method with its two-cursor loop, proved equal to the
  recursive specification `Merged`. `merge_sort` is a recursive function
  over slices. Elements have any type `T` and are ordered by an integer key
  `key: T -> int`, so two different elements can compare equal. This is
  what makes the tie rule of `merge` visible: on equal keys the right
  element is taken first.
- **Longest substring without repeated characters**
  (`find_longest_substring`) — `longest_substring.dfy`, module
  `LongestSubstring`. It is a method with the source's sliding-window `for`
  loop, the `used` dictionary as a `map<char, nat>` and the three counters.
  It is proved to return the leftmost longest slice with no repeated
  character.
- **Run-length coding** (`rle_encode`, `rle_decode`) — `run_length.dfy`,
  module `RunLength`.
  - `Encode` is a method with the source's loop. It is proved to return the
    rendering of the string's maximal runs. Those runs are characterised:
    they are maximal, they spell the string, and they are unique.
  - `Decode` is a method with the source's nested loops. It is proved equal
    to the segment-by-segment specification `Decoded`.
  - Decoding the encoding of any string without digits gives the string
    back.
  - The two exceptions the source raises on ordinary input are modelled as
    error results:
    - `s[0]` on an empty string becomes `Err(EmptyInput)`;
    - `int('')` for a character with no count becomes `Err(MissingCount)`.
- **Two helpers** (`reverse_string`, `factorial`) — `basics.dfy`, module
  `Basics`.

Two points where the code behaves differently from what a reader might
expect:

- **Stability.** Merge sort is often assumed to be stable. This one is not,
  because the merge compares with a strict `<` and so takes the right
  element on a tie (python_utils/utils.py:135-140).
  `Sorting.MergeSortSwapsEqualKeys` proves the consequence for a
  two-element input with equal keys: it comes out in reverse order. The model claims no stability.
- **Malformed input to the decoder.** A character with no digits after it
  is not skipped or decoded to something arbitrary: `int('')` raises
  (python_utils/utils.py:214). The model returns `Err(MissingCount)`.

## Model

| member | source | states |
|---|---|---|
| Sorting.Merged | python_utils/utils.py:133-143 | The specification of `merge`: its result is as long as both sides together |
| Sorting.Merge | python_utils/utils.py:124-143 | The two-cursor loop followed by the two `extend`s returns exactly `Merged(left, right)`: a strictly smaller left front goes first, otherwise the right front goes first, then the rest of both sides in order |
| Sorting.MergedPermutes | python_utils/utils.py:133-143 | The merge holds every element of both sides, each as often as the sides do together, so its length is the sum of the two lengths |
| Sorting.MergedSorted | python_utils/utils.py:133-143 | Merging two key-sorted sequences gives a key-sorted sequence |
| Sorting.MergedAtLeast | python_utils/utils.py:133-143 | A lower bound on the keys of both sides bounds every key of their merge |
| Sorting.MergeSort | python_utils/utils.py:110-122 | The result is a permutation of the input and is sorted by key, and an input of length at most one is returned unchanged |
| Sorting.MergeSortSwapsEqualKeys | python_utils/utils.py:135-140 | The sort is not stable: `[a, b]` with equal keys comes out as `[b, a]` |
| Sorting.SortedPermutationsEqual | python_utils/utils.py:110-122 | Two sorted integer sequences with the same elements are equal, so there is only one possible sorted output |
| Sorting.MergeSortPermutationInvariant | python_utils/utils.py:110-122 | On integers the output depends only on the multiset of the input |
| Sorting.MergeSortIsTheSortedPermutation | python_utils/utils.py:110-122 | Any sorted permutation of an integer input is what the sort returns |
| Sorting.MergeSortExample | python_utils/utils.py:110-122 | `[5,3,1,4,1,5,9,2,6]` sorts to `[1,1,2,3,4,5,5,6,9]` |
| LongestSubstring.FindLongestSubstring | python_utils/utils.py:159-177 | The result has no repeated character. It is the slice `s[k..k+m]` such that no all-distinct slice is longer and none of the same length starts earlier |
| LongestSubstring.ScanStep | python_utils/utils.py:169-176 | One iteration (the jump of `start` past a repeat, or the strict-improvement update of `maxlen`/`substr_start`, then `used[c] = i`) keeps the scan invariant: `used` holds the last index of every seen character, the window is all-distinct and cannot be extended to the left, and the best slice is the leftmost longest among those already scanned |
| LongestSubstring.LastSeenStep | python_utils/utils.py:176 | `used[c] = i` keeps `used` mapping exactly the characters seen so far to their last index |
| LongestSubstring.BestIsLeftmostLongest | python_utils/utils.py:177 | After the whole string is scanned, the best slice recorded is the leftmost longest all-distinct slice |
| LongestSubstring.LeftmostLongestUnique | python_utils/utils.py:169-177 | The contract of `FindLongestSubstring` admits only one start and length, so it fully determines the result |
| LongestSubstring.RepeatedCharacter | python_utils/utils.py:169-177 | For a non-empty string of one repeated character (`"bbbbb"`) the result is its first character alone |
| LongestSubstring.EmptyString | python_utils/utils.py:167-177 | The empty string gives the empty result |
| LongestSubstring.AbcExample | python_utils/utils.py:169-177 | `"abcabcbb"` gives `"abc"`, the leftmost of its longest all-distinct slices |
| RunLength.Encode | python_utils/utils.py:179-196 | An empty string is an error. Otherwise the result is the rendering of the string's runs: for each run, its character followed by the decimal form of its length |
| RunLength.Runs | python_utils/utils.py:187-196 | The run list the encoder walks, built one character at a time as its loop does: it is empty exactly for the empty string, and its last run holds the string's last character |
| RunLength.RunsMaximal | python_utils/utils.py:187-196 | Every run has length at least one, and adjacent runs hold different characters |
| RunLength.ExtendMaximal | python_utils/utils.py:189-193 | Taking one more character (lengthening the current run, or starting a new one on a change) keeps the runs maximal |
| RunLength.RunsSpellOut | python_utils/utils.py:187-196 | The runs, expanded, spell out the string |
| RunLength.RunsCharacters | python_utils/utils.py:187-196 | Every run's character occurs in the string |
| RunLength.RunsUnique | python_utils/utils.py:187-196 | Any maximal run list that spells out the string is the one the encoder walks |
| RunLength.Decimal | python_utils/utils.py:192 | `str(count)` is non-empty, made of digits only, and starts with `'0'` only for zero, so it has no leading zero |
| RunLength.DecimalValue | python_utils/utils.py:192 | `int(str(n)) == n`: reading the decimal form back gives the number |
| RunLength.Repeat | python_utils/utils.py:214 | `char * n`: a string of length `n` in which every character is `char` |
| RunLength.DigitsValue | python_utils/utils.py:214 | `int(count)` for a string of decimal digits: a value below 10 to the power of the number of digits |
| RunLength.Decoded | python_utils/utils.py:198-215 | The specification of `rle_decode`. The only error is a missing count (the empty input decodes to the empty string), and a first character not directly followed by a digit is one |
| RunLength.Decode | python_utils/utils.py:198-215 | The nested loops return exactly `Decoded(s)`. The input is cut into segments, each a character and the maximal run of digits after it, and each segment adds the character repeated the digits' value times. A character with no digits after it is an error |
| RunLength.TakeDigits | python_utils/utils.py:211-213 | The inner loop collects exactly the digits that follow `from` and stops at the first non-digit or at the end |
| RunLength.LeadingDigits | python_utils/utils.py:211-213 | The leading digit block ends at a non-digit or at the end of the string |
| RunLength.LeadingDigitsExact | python_utils/utils.py:211-213 | A digit block followed by a non-digit or by the end is exactly the block the inner loop takes |
| RunLength.DecodeRender | python_utils/utils.py:198-215 | Decoding the rendering of runs whose characters are not digits gives their expansion |
| RunLength.EncodeDecodeRoundTrip | python_utils/utils.py:179-215 | For every string without digit characters, decoding the encoding gives the string back |
| RunLength.EncodeExample | python_utils/utils.py:187-196 | `"aaabbc"` encodes to `"a3b2c1"` |
| RunLength.DecodeExample | python_utils/utils.py:206-215 | `"a3b2c1"` decodes to `"aaabbc"` |
| RunLength.DecodeZeroAndMissing | python_utils/utils.py:206-215 | A zero count contributes nothing (`"a0b2"` gives `"bb"`), and a character with no count is an error (`"ab"`) |
| Basics.ReverseString | python_utils/utils.py:15-23 | `s[::-1]`: the result has the same length and holds at position `k` the character `k` places before the end of `s` |
| Basics.ReverseInvolutive | python_utils/utils.py:23 | Reversing twice gives the string back |
| Basics.ReverseConcat | python_utils/utils.py:23 | The reverse of `a + b` is the reverse of `b` followed by the reverse of `a` |
| Basics.ReversePermutes | python_utils/utils.py:23 | Reversal keeps every character and how often it occurs |
| Basics.Factorial | python_utils/utils.py:87-95 | The factorial is at least 1 |
| Basics.FactorialSplit | python_utils/utils.py:95 | `n! == k! * ((k+1) * ... * n)` for every `k <= n`, so `k!` divides `n!` |
| Basics.FactorialIsProduct | python_utils/utils.py:95 | The recursion computes `1 * 2 * ... * n` |
| Basics.FactorialExample | python_utils/utils.py:95 | `5! == 120` |

## Left out

- `read_json`, `write_json`, `checksum`, `create_dir` are not modelled. They are file-system I/O and calls into the `json` and `hashlib` libraries.
- `date_str` and `days_diff` are not modelled. They read the wall clock and rely on `datetime` arithmetic.
- `is_prime` is not modelled. Its loop bound `int(num**0.5)` is a floating-point square root.
- `fibonacci_memo` is not modelled. Its behaviour rests on the mutable default dictionary, which all calls share.
- `capitalize_first` is not modelled. It relies on Unicode `str.upper`, which can map one character to several.
- The demonstration printout under `__main__` is not modelled.
- Run-length digits: the decoder's `str.isdigit` accepts Unicode digits from every script, which `int` reads as their decimal values. The model accepts only ASCII `'0'..'9'`, and `int` is modelled for those digits only.
- Element types: Python compares list elements of any type with `<`. The model orders elements of one type through an integer key. Comparisons that raise `TypeError` on mixed types are not modelled.
- Basics.Factorial: the argument is a natural number, and the model returns n! for every natural n. In CPython each call is a nested frame, so under the default recursion limit of 1000 frames `factorial(n)` raises `RecursionError` for non-negative arguments from about 1000 up, and for every negative argument, which never reaches the base case. Neither error is modelled.
- Strings that contain a lone surrogate (a code point in U+D800..U+DFFF, which a Python `str` can hold, for example after `surrogateescape` decoding) are outside the model: a Dafny `char` is a Unicode scalar value. Other Python strings map directly to `seq<char>`. The slices the sort takes and the list `merge` builds are fresh lists in Python, and the model treats them as values.
- Sorting.MergeSort: for an input of length 0 or 1, Python returns the caller's list object itself, so mutating the result mutates the input. The model returns a value equal to the input and does not capture object identity or aliasing.
- RunLength.Decode: it returns the repeated character for any count. CPython instead raises `OverflowError` in `char * int(count)` when the count does not fit an index-sized integer, for example `"a9223372036854775808"` (2 to the power 63). CPython 3.11 and later also raise `ValueError` in `int(count)` for a count of more than 4300 digits, such as `"a"` followed by 4301 zeros, where the model returns `Ok("")`. Memory exhaustion for large but representable counts is not modelled either.
- RunLength.Decode: `str.isdigit` also accepts characters such as `'²'` that are digits but not decimal digits, and `int()` then rejects them with `ValueError`. The model's digits are ASCII `'0'..'9'` only, so such a character is read as the next segment's character instead.
- Sorting.MergeSort: it is a function, so it calls the specification `Merged` rather than the method `Merge`. `Sorting.Merge` is proved equal to `Merged`.
- RunLength.TakeDigits: the source's inner `while` loop is a separate method here. It has the same loop and the same exit condition.
