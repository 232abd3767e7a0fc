# Slot report: a Dafny model

This project models the core of `app2.py`, a small tool that turns a
slot-machine data table into a report image of "excellent machines"
(優秀台). The page always builds three report groups, one per row of
inputs. Each group names a model as the table spells it, a display label,
and a payout threshold. The model takes the groups as a sequence of any
length; positions 0 and 1 behave as the first two groups do.
The model covers three parts:

- **Extraction** (`get_machine_rows`). For one group, keep the records of
  that exact model whose payout (差枚) is at least the threshold. Order
  them by unit number (台番). Emit a block: a blank title-band row, the
  fixed column-header row, then one formatted data row per record. When
  the model-name column is missing, or when no record qualifies, there is
  no block (`None`).
- **Assembly** (the loop over the three groups). Each contributing group's
  block is appended to one grid. The loop records the row index of each
  group's title band and column header, and the group's label. After the
  block of a group at position 0 or 1 it appends a blank separator row.
- **Row roles** (the rendering dispatch). Each row of the grid is a title
  band (captioned "<label> 優秀台"), a column header, a separator, or a
  data row, in that order of precedence. Data rows are grey when their
  index in the whole grid is even.

The cell formats are modelled exactly:

- Unit numbers are written with `str`.
- Play counts are written with `f"{n:,}G"` (thousands grouped with
  commas).
- Payouts are written with `f"+{n:,}枚"`. The plus sign is a literal, so a
  negative payout comes out as `+-300枚`.

Each format has a parser partner, and round-trip lemmas show that no
information is lost.

Modules:

| module | file | what it holds |
|---|---|---|
| `Wrappers` | wrappers.dfy | `Option`, `Result` |
| `NumberFormat` | number_format.dfy | `str(int)`, `f"{n:,}"`, the two cell formats, their parsers |
| `Records` | records.dfy | records, tables, groups, the filter, the sort by unit number |
| `Extraction` | extraction.dfy | `MachineRows` (`get_machine_rows`) and its lemmas |
| `Assembly` | assembly.dfy | the assembly fold, the `BuildReport` loop, the layout invariant, the between-blocks layout |
| `Roles` | roles.dfy | row roles and what is handed to the renderer |
| `Loader` | loader.dfy | reading the upload: legacy Japanese encoding first, then UTF-8 |

## Model

| member | source | states |
|---|---|---|
| NumberFormat.IntText | app2.py:85 | `str(n)` of an integer is non-empty and starts with '-' exactly when n is negative |
| NumberFormat.IntTextRoundTrip | app2.py:85 | `str(n)` for any integer reads back as `n`, so the unit-number cell loses nothing |
| NumberFormat.GroupThousands | app2.py:89 | `f"{n:,}"` for n >= 0 is non-empty, starts with a digit, and is well grouped: one to three leading digits, then comma-separated groups of exactly three |
| NumberFormat.FormatInt | app2.py:89 | the grouped text of n is non-empty and starts with '-' exactly when n is negative |
| NumberFormat.FormatIntRoundTrip | app2.py:89 | reading the grouped text of any integer back gives that integer |
| NumberFormat.FormatPlayCount | app2.py:89 | the play-count cell `f"{n:,}G"` ends in 'G' and starts with '-' exactly when n is negative |
| NumberFormat.PlayCountRoundTrip | app2.py:89 | the play-count cell `"{n:,}G"` reads back as n |
| NumberFormat.PlayCountStripsToNumeral | app2.py:89 | the play-count cell ends in 'G', and without it and its commas it is `str(n)` |
| NumberFormat.FormatPayout | app2.py:97 | the payout cell `f"+{n:,}枚"` starts with the literal '+', ends with '枚', and its second character is '-' exactly when n is negative |
| NumberFormat.PayoutRoundTrip | app2.py:97 | the payout cell `"+{n:,}枚"` reads back as n, for negative n too |
| NumberFormat.PayoutStripsToNumeral | app2.py:97 | the payout cell starts with '+' and ends with '枚', and without those and its commas it is `str(n)` |
| NumberFormat.PlayCountExample | app2.py:89 | 9876 games are written "9,876G" |
| NumberFormat.PayoutExample | app2.py:97 | a payout of 1234 is written "+1,234枚" |
| NumberFormat.NegativePayoutExample | app2.py:97 | a payout of -300 is written "+-300枚": the literal plus is kept |
| Records.Qualifies | app2.py:61-63 | a record qualifies when its model name equals the group's model exactly and its payout is at least the threshold |
| Records.Qualifying | app2.py:61-63 | the kept records are exactly the records of the named model with payout >= threshold, each kept as often as it occurs |
| Records.InsertByUnit | app2.py:63 | inserting into a unit-ordered sequence keeps it ordered and adds nothing but the inserted record |
| Records.InsertPermutes | app2.py:63 | inserting adds exactly one copy of the record (multiset) |
| Records.SortByUnit | app2.py:63 | the result is in non-decreasing unit-number order and is a permutation of the input |
| Records.Selection | app2.py:61-63 | a group's records are unit-ordered, contain exactly the qualifying records with their multiplicities, and are as many as the qualifying records |
| Extraction.DataRow | app2.py:83-99 | a data row has seven cells and its second cell is the group's display label |
| Extraction.Block | app2.py:73-101 | a block is the blank title row, the header row, then the data rows of the records in order |
| Extraction.BlockRowsHaveSevenCells | app2.py:75-99 | every row of a block, title placeholder and header included, has the seven cells of the report's columns |
| Extraction.MachineRows | app2.py:51-101 | no block exactly when the model column is missing or no record qualifies; otherwise the block of the selection, with 2 + (number of qualifying records) >= 3 rows |
| Extraction.DataRowReadsBack | app2.py:83-99 | each cell of a data row reads back as the field it shows: the unit cell as the unit number, the play-count cell as the play count, the payout cell as the payout; the label and the three hit-count cells are copied unchanged |
| Extraction.DataRowDeterminesFields | app2.py:83-99 | two records with the same data row agree on unit, play count, hit counts and payout |
| Extraction.IntTextInjective | app2.py:85 | distinct unit numbers get distinct unit cells |
| Extraction.QualifyingRecordIsListed | app2.py:61-63 | every qualifying record, one at exactly the threshold included, has its data row in the block |
| Extraction.ListedRowIsQualifying | app2.py:61-99 | every data row of a block is the row of some qualifying record of the table |
| Extraction.BlockInUnitOrder | app2.py:63-85 | the unit cells of a block's data rows, read back as integers, never decrease down the block |
| Assembly.Slots | app2.py:189-191 | the loop sees, for each group in order, the result of `get_machine_rows` and the group's label |
| Assembly.Yields | app2.py:193 | `if res:` holds for a non-empty list and fails for `None` and for an empty list |
| Assembly.Step | app2.py:193-207 | one iteration: a group without a block changes nothing; otherwise every list is only extended, one title band (the old row count), one header and one label are added, and one separator exactly when the position is 0 or 1 |
| Assembly.AssemblePrefix | app2.py:177-207 | after any number of iterations the title-band, header and label lists have equal length, at most one entry per group, and there are at most two separators, never more than title bands |
| Assembly.Assemble | app2.py:177-207 | the loop over all groups, as the fold of `Step` over their `get_machine_rows` results |
| Assembly.BuildReport | app2.py:177-207 | the loop yields the fold's grid, in which: each header index is its title-band index plus one and inside the grid; the k-th label is that of the k-th group whose `get_machine_rows` returns a block; the separators are as many as such groups among the first two, and each is a blank row inside the grid; the row count is the block rows plus the separators; no index is both title band and header, or either and a separator |
| Assembly.Yielding | app2.py:193 | the positions of the contributing groups are exactly the positions whose result is a non-empty block, in increasing order |
| Assembly.SlotsHaveHeaders | app2.py:191-193 | every block the loop receives has at least its title and header rows; a group contributes exactly when `get_machine_rows` returns a block |
| Assembly.HeaderFollowsHeadline | app2.py:195-197 | each header index is its title-band index plus one and lies inside the grid |
| Assembly.InfoNamesYieldingGroups | app2.py:193-201 | the k-th label and title band belong to the k-th contributing group, whose block appears unchanged at that title band |
| Assembly.SkippedGroupAddsNothing | app2.py:191-193 | a group without a block changes neither the grid nor any index list |
| Assembly.SeparatorPlacement | app2.py:203-207 | a separator follows the block of each contributing group at position 0 or 1 and no other; it is a blank row inside the grid; their number is the number of contributing groups among the first two |
| Assembly.IndicesDisjointAndInRange | app2.py:195-207 | title-band, header and separator indices are inside the grid and pairwise disjoint, and title bands increase |
| Assembly.GridHasSevenColumns | app2.py:75-207 | every row of the assembled grid, title placeholders, headers and separators included, has the seven cells of the report's columns |
| Assembly.RowCount | app2.py:201-207 | the grid has exactly the rows of the contributed blocks plus one per separator |
| Assembly.EmptyGridIffNothingYields | app2.py:211 | the grid is empty exactly when no group contributes a block |
| Assembly.TrailingSeparatorIff | app2.py:203-207 | as written, the grid ends in a separator exactly when the last contributing group is at position 0 or 1 |
| Assembly.OnlyFirstGroupYields | app2.py:203-207 | when only the first of three groups contributes, the grid's single separator is its last row |
| Assembly.BetweenSeparators | app2.py:203-207 | for contrast with the loop, the between-blocks layout (a separator only before a non-first block) gives max(N-1, 0) separators for N contributing groups, each right after one block and right before the next title band, never the last row |
| Roles.IndexOf | app2.py:237 | `list.index`: the position returned holds the value and no earlier position does |
| Roles.RoleOf | app2.py:231-285 | a row is a title band iff it is a title-band index; a header iff it is a header index and not a title band; a separator iff a separator index and neither; otherwise data, grey iff the row index is even |
| Roles.Render | app2.py:211-227 | nothing is rendered exactly when the grid is empty; otherwise one role per row |
| Roles.RolesOfAssembledGrid | app2.py:231-285 | on an assembled grid every row's role is exactly given by the one index list it is in |
| Roles.TitleBandCaptions | app2.py:231-237 | the k-th title band is captioned with the k-th contributing group's label followed by " 優秀台" |
| Roles.NothingRenderedIffNoBlock | app2.py:211 | nothing is rendered exactly when no group contributes a block |
| Roles.ReportRoles | app2.py:177-285 | from table and groups: nothing is rendered iff no group has a block, and otherwise each row's role matches its index list |
| Loader.Load | app2.py:123-139 | the legacy decoder's table is used when it succeeds, else the UTF-8 decoder's on the whole upload, else the read fails |
| Loader.FallbackIsTransparent | app2.py:127-133 | an upload the legacy decoder rejects loads as if only the UTF-8 decoder were tried |

## Left out

- The Streamlit page: title, file picker, the three group inputs, the button, the error message. The groups arrive as a parameter.
- Reading a CSV: the two decoders are parameters of `Loader.Load`. The table arrives already parsed, with `台番`, `G数` and `差枚` as integers and `BB`, `RB`, `ART` as their cell text. Numeric coercion, `NaN` and `int()` truncation of floats are not modelled.
- Loader.Load: the exception the first decoder raises is modelled as `None`; which exceptions are caught is not modelled.
- Missing columns: only the model-name column is modelled as possibly absent, since it is the only one `get_machine_rows` checks. The other six columns are assumed present, since a `Record` always has all six fields. `差枚` and `台番` are read at line 63 on every call that finds the model column, so without them the program raises `KeyError`. `G数`, `BB`, `RB` and `ART` are read only while data rows are built (lines 89-95), so without them it raises `KeyError` once a record qualifies, and returns `None` otherwise.
- Line 143 (`unique()` of the model column, which raises when the column is missing) feeds only the selection widgets. It is left out, so a missing column reaches `get_machine_rows`, which returns `None`.
- Record unit numbers are integers in the model. A unit column read as text would be sorted by pandas as strings, character by character; that case is not modelled.
- Records.SortByUnit: pandas' default sort is not stable, so the order among records with equal unit numbers is not specified by the program. The model claims only order and permutation; its insertion sort is one admissible order.
- The font download and registration (`setup_plt_font`), and matplotlib figure size, column widths, scaling, colours, font sizes, weights and cell edges. Of the per-cell styling only the row role and the title caption are modelled.
- Roles.RoleOf: the caption is placed in column 3 and the other cells of a title band are blanked. The model gives the row's caption, not the per-cell text.
- The image export and the download button.

## Trailing separator and tie order

The loop appends a blank separator row after the block of any
contributing group at position 0 or 1, whether or not a later group
contributes. With three groups of which only the first has qualifying
records, the grid therefore ends with a blank row. The model follows the
loop (`Assembly.Assemble`, `Assembly.TrailingSeparatorIff`,
`Assembly.OnlyFirstGroupYields`), and the row roles are stated for that
grid. The between-blocks layout, with one separator only between two
contributing groups and none after the last, is defined beside it as
`Assembly.AssembleBetween`; `Assembly.BetweenSeparators` states how it
differs.

The sort on the unit-number column is pandas' default sort, which is not
stable, so the model claims nothing about the order of records with equal
unit numbers (see `Records.SortByUnit` above). Unit numbers are integers
in the model; a text unit column, which pandas would order as strings, is
not modelled.
