# BIPSPI+ pair preparation, modelled in Dafny

`yulab/prepare_test_data.py` gets a list of protein pairs ready for BIPSPI+.
Each line of the pairs file names a ligand and a receptor PDB identifier joined
by `+` (for example `1abc_A+2xyz_B`). `translate_ids` turns such a token into a
uid that BIPSPI+ will not misparse: every `_` in the two names becomes `-`, and
the two halves are joined with `--`. The result is a five-tuple
`(uid, ligand, receptor, t_ligand, t_receptor)`. `run` reads the pairs file line
by line. It strips each line, translates it, appends the tuple to `pdb_pairs`,
counts a repeat when the uid is already in the set `uids`, and then adds the uid.

The project has two modules:

- `PyStr` (`py_str.dfy`) models the Python `str` operations the script uses:
  - `split("+")` as `Split`;
  - `replace("_", "-")` as `Replace`;
  - `strip()` as `Strip`, using Python's `str.isspace` character set;
  - the character count that decides how many fields `split` returns, as `Count`.

  Each comes with its round trips and invariants.
- `PrepareTestData` (`prepare_test_data.dfy`) models two things:
  - `translate_ids`, as the pure function `TranslateIds`;
  - the ingestion loop of `run`, as the method `IngestPairs`. It takes the file's
    lines as a `seq<string>` and returns the list, the set and the counter.
    These are specified through the recursive functions `UidsOf` and `Repeats`.

`translate_ids` unpacks `split("+")` into exactly two names. On any other number
of fields Python raises `ValueError`, which the model represents as
`Err(UnpackMismatch(n))`, where `n` is the number of fields. An exception in the
loop ends `run`; `IngestPairs` reports the index of the failing line and the
state the loop had reached when it failed.

`yulab/calculate_progress.py` has no logic to model: it only parses arguments
and then calls a `run` that it neither defines nor imports.

## Model

| member | source | states |
|---|---|---|
| PyStr.Count | yulab/prepare_test_data.py:34 | the count of a character is at most the length, and it is zero exactly when the character does not occur |
| PyStr.Split | yulab/prepare_test_data.py:34 | `split` on a one-character separator returns exactly one field more than there are separators, so it never returns an empty list |
| PyStr.SplitFieldsFree | yulab/prepare_test_data.py:34 | no field returned by `split` contains the separator |
| PyStr.JoinSplit | yulab/prepare_test_data.py:34 | splitting is lossless: joining the fields with the separator gives back the input |
| PyStr.SplitFreePrefix | yulab/prepare_test_data.py:34 | putting a separator-free prefix in front of a string only extends its first field |
| PyStr.SplitJoin | yulab/prepare_test_data.py:34 | the converse round trip: splitting a join of separator-free fields gives back exactly those fields |
| PyStr.Replace | yulab/prepare_test_data.py:35-36 | `replace` of one character keeps the length; each `from` becomes `to` and every other character stays at its position |
| PyStr.ReplaceRemoves | yulab/prepare_test_data.py:35-36 | after replacing `from` by a different character, `from` no longer occurs |
| PyStr.ReplaceIdempotent | yulab/prepare_test_data.py:35-36 | replacing a second time changes nothing |
| PyStr.ReplaceAbsent | yulab/prepare_test_data.py:35-36 | replacing a character that does not occur returns the string unchanged |
| PyStr.ReplaceAppend | yulab/prepare_test_data.py:35-36 | replacement distributes over concatenation |
| PyStr.ReplaceKeepsOthers | yulab/prepare_test_data.py:35-36 | a character other than `from` and `to` occurs in the result exactly when it occurs in the input |
| PyStr.ReplaceKeepsCount | yulab/prepare_test_data.py:34-36 | a character other than `from` and `to` keeps its count, so replacing `_` by `-` leaves the number of `+` unchanged |
| PyStr.LeadingSpaceIsMaximal | yulab/prepare_test_data.py:54 | `strip` cuts a prefix that is all whitespace and stops at the first non-whitespace character |
| PyStr.TrailingSpaceIsMaximal | yulab/prepare_test_data.py:54 | `strip` cuts a suffix that is all whitespace and stops at the last non-whitespace character |
| PyStr.Strip | yulab/prepare_test_data.py:54 | the stripped line is a slice of the line; both cut ends are all whitespace, and the result neither starts nor ends with whitespace |
| PyStr.StripNoSpace | yulab/prepare_test_data.py:54 | a line with no whitespace at either end is unchanged by `strip` |
| PyStr.StripIdempotent | yulab/prepare_test_data.py:54 | stripping twice is the same as stripping once |
| PrepareTestData.TranslateIds | yulab/prepare_test_data.py:19-38 | a token translates exactly when it holds exactly one `+`; otherwise the error records how many fields `split` found, and that number is never 2 |
| PrepareTestData.TranslateIdsLossless | yulab/prepare_test_data.py:34-38 | the returned ligand and receptor rebuild the token as `ligand + "+" + receptor`, and neither contains `+` |
| PrepareTestData.TranslatedNames | yulab/prepare_test_data.py:35-38 | `t_ligand` and `t_receptor` are the names with every `_` replaced by `-`: same lengths, and position by position no `_` remains; `uid == t_ligand + "--" + t_receptor`, the uid holds neither `_` nor `+`, and it is one character longer than the token |
| PrepareTestData.TranslationIdempotent | yulab/prepare_test_data.py:35-36 | applying the `_` to `-` replacement to `t_ligand` or `t_receptor` again leaves them unchanged |
| PrepareTestData.TranslateIdsOfNames | yulab/prepare_test_data.py:19-38 | the converse of losslessness: any two `+`-free names joined by `+` translate to exactly those names and their translations |
| PrepareTestData.SplitAtFirst | yulab/prepare_test_data.py:34 | two strings that put a separator after a separator-free prefix agree on both sides of that separator |
| PrepareTestData.SameUidUpToUnderscore | yulab/prepare_test_data.py:35-37 | if one of two tokens that differ only by `_` versus `-` translates, so does the other, and both get the same uid |
| PrepareTestData.UidDeterminesToken | yulab/prepare_test_data.py:35-37 | on tokens with neither `_` nor `-`, equal uids imply equal tokens |
| PrepareTestData.UidCollidesAcrossSeparator | yulab/prepare_test_data.py:37 | without that restriction the uid is not injective: `l-+r` and `l+-r` are different tokens with the same uid |
| PrepareTestData.UidsOfMembers | yulab/prepare_test_data.py:55-59 | the uid set is exactly the set of first components of the tuples |
| PrepareTestData.SeenBeforeIff | yulab/prepare_test_data.py:56 | the loop's test `uid in uids` on entry `j` holds exactly when an earlier entry has the same uid |
| PrepareTestData.RepeatsPlusUids | yulab/prepare_test_data.py:56-59 | every entry either is a repeat or adds a new uid, so `rep` plus the size of `uids` equals the length of `pdb_pairs` |
| PrepareTestData.RepeatsZeroIffDistinct | yulab/prepare_test_data.py:56-58 | the repeat counter stays at zero exactly when no two entries share a uid |
| PrepareTestData.IngestedAt | yulab/prepare_test_data.py:53-54 | the loop's invariant, read entry by entry: `pdb_pairs[k]` is the result of parsing `lines[k]`; the loop uses it with `translate_ids(line.strip())` as the parser |
| PrepareTestData.IngestPairs | yulab/prepare_test_data.py:49-59 | `pdb_pairs[k]` is the translation of the stripped `lines[k]`, in input order. If every line translates, `pdb_pairs` has one entry per line; otherwise it stops at the first failing line and reports it with its error. `uids` is the set of uids of `pdb_pairs`, `rep` counts the entries whose uid was seen before, and `rep` plus the size of `uids` equals the length of `pdb_pairs` |
| PrepareTestData.UnderscoreVariantIsRepeat | yulab/prepare_test_data.py:35-58 | a line that differs from an earlier one only by `_` versus `-` is counted as a repeat, so the counter is at least one |

## Left out

- Logger setup (yulab/prepare_test_data.py:8-16) and every `logger.info` and `logger.warn` call. They only produce output.
- The directory asserts and `mkdir` at the start of `run` (lines 42-45). These are filesystem effects; the model starts from the lines of the pairs file.
- Opening and reading the pairs file (line 52). The model takes the lines as a `seq<string>`, so Python's line splitting and newline translation are not modelled.
- The second loop of `run` (lines 62-76). It checks that each `.pdb` file exists and logs a warning; the copies that would act on it are commented out. `rich.progress.track` only draws a progress bar around that loop.
- The `argparse` command line of both scripts.
- `yulab/calculate_progress.py` is not part of this model. It has no logic, and its call to an undefined `run` would raise `NameError`.
- Progress or timing statistics: neither script computes any.
- Exceptions are modelled as values. `TranslateIds` returns `Err`, and `IngestPairs` returns the failing line instead of unwinding.
- PyStr.Strip: uses the character set of Python's `str.isspace`, written out as a fixed list. That list matches current Unicode data; it is not derived from the Unicode database.
- PyStr.Split and PyStr.Replace: only the one-character separator and replacement cases the script uses are modelled, not general substring versions.
