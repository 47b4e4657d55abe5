# clean_duplicate_history, modelled in Dafny

This project models the core of django-simple-history's
`clean_duplicate_history` management command.

The command walks each tracked object's history, newest row first. It
compares every row with the next older one. When the diff between them
reports no changed field outside `excluded_fields`, the newer row is
redundant, and the command acts on it in one of three ways:
- deletes it at once;
- on a dry run, only counts it;
- in batch mode, appends its `id` to a deletion list. The list is deleted
  later in slices of `batch_size`, with an optional pause between slices.

With a time window (`--minutes`), only rows dated at or after `stop_date`
are scanned. The oldest of them is also compared with `extra_one`, the
newest row dated at or before `stop_date`.

Modules:

- `Wrappers` (`wrappers.dfy`): `Option`, which models `extra_one`, a missing
  `--batch-size` and the `ZeroDivisionError` of a zero batch size.
- `History` (`history.dfy`): a historical row (`Snapshot`), the field diff
  and the duplicate test.
  - `historyId` is the table's primary key `history_id`.
  - `id` is the tracked object's own `id`. The historical table keeps it as
    an ordinary column.
- `Window` (`window.dfy`): the time window, `extra_one`, and the chain of
  rows the scan walks. It also holds the corrected boundary row with a
  strict comparison.
- `Scan` (`scan.dfy`): specification functions for the rows the scan finds
  redundant, and lemmas about them.
- `Batching` (`batching.dfy`): Python's floor division and remainder,
  `batch_count`, and the reference partition of a list into slices.
- `Table` (`table.dfy`): the historical table as a class over a map keyed by
  `history_id`, with its two delete operations. It also holds the lemmas
  about batch deletion by `id` and the corrected deletion by primary key.
- `CleanDuplicateHistory` (`command.dfy`): the command itself as a class.
  - Its methods mirror `_check_and_delete`, `_check_and_batch`,
    `_process_instance`, the batch loop of `_process`, and `log`.
  - Each method is proved against the specification functions above.

The command model keeps the code's behaviour as written, including the two
defects listed under Findings. The corrected definitions sit beside it,
with their intended properties proved. `Window.NoTieSameBoundary` shows
that, when no row is dated exactly `stop_date`, the command's `extra_one`
is the corrected boundary row.

## Model

Source paths are relative to the repository root.

| member | source | states |
|---|---|---|
| History.ChangedFields | simple_history/management/commands/clean_duplicate_history.py:179 | the diff's changed fields never include an excluded field and come from the two rows' fields; a field present on both sides is changed exactly when its values differ |
| History.UnchangedReflexive | simple_history/management/commands/clean_duplicate_history.py:179-180 | a row compared with itself reports no changed field, so it counts as a duplicate |
| History.NoChangedFieldsIffUnchanged | simple_history/management/commands/clean_duplicate_history.py:179-180 | `not delta.changed_fields` holds exactly when every field outside `excluded_fields` is present on both rows with equal values, both directions |
| Window.ExtraOne | simple_history/management/commands/clean_duplicate_history.py:138 | `extra_one` exists exactly when some row is dated at or before `stop_date`, and it is such a row of the history |
| Window.ExtraBefore | simple_history/management/commands/clean_duplicate_history.py:138 | the corrected boundary row exists exactly when some row is dated strictly before `stop_date`, and it is such a row |
| Window.ChainPairs | simple_history/management/commands/clean_duplicate_history.py:144-152 | every pair the scan compares is two neighbours of the window, or the oldest windowed row followed by `extra_one`; no other pair is compared |
| Window.AtOrAfter | simple_history/management/commands/clean_duplicate_history.py:139 | `filter(history_date__gte=stop_date)`: a row is in the window exactly when it is in the history and dated at or after `stop_date`, both directions |
| Window.WindowIsPrefix | simple_history/management/commands/clean_duplicate_history.py:139 | in a history whose first k rows are dated at or after `stop_date` and the rest before it, the window is exactly those k rows |
| Window.ExtraOneAt | simple_history/management/commands/clean_duplicate_history.py:138 | `extra_one` is the first row dated at or before `stop_date` |
| Window.StrictBoundaryChainIsPrefix | simple_history/management/commands/clean_duplicate_history.py:136-139 | with the strict boundary, the scanned chain of a newest-first history is a prefix of that history, so every compared pair is two distinct neighbouring rows |
| Window.NoTieSameBoundary | simple_history/management/commands/clean_duplicate_history.py:138-139 | when no row is dated exactly `stop_date`, `extra_one` is the strict boundary row |
| Window.TieBoundaryAtStop | simple_history/management/commands/clean_duplicate_history.py:136-138 | when some row is dated exactly `stop_date`, `extra_one` exists and is itself dated `stop_date`, so it is also in the window |
| Window.TieChainStaysAtStop | simple_history/management/commands/clean_duplicate_history.py:136-152 | when some row is dated exactly `stop_date`, every row the scan walks is dated at or after `stop_date`: the row before `stop_date` is never compared |
| Scan.DuplicatesExactly | simple_history/management/commands/clean_duplicate_history.py:148-150 | a row is listed as redundant exactly when it is the newer member of a pair of neighbours with an empty diff |
| Scan.DuplicatesCount | simple_history/management/commands/clean_duplicate_history.py:148-150 | the number of redundant rows equals the number of unchanged pairs of neighbours, so each pair is compared once |
| Scan.RunOfDuplicates | simple_history/management/commands/clean_duplicate_history.py:148-150 | `f1` advances to `f2` whether or not `f1` was redundant, so a run of k identical rows yields its first k - 1 rows |
| Scan.OldestNeverListed | simple_history/management/commands/clean_duplicate_history.py:148-152 | only the newer member of a pair is listed, so the oldest row of a chain of distinct rows is never listed |
| Scan.OldestSurvivesWithoutWindow | simple_history/management/commands/clean_duplicate_history.py:140-150 | without a time window, the oldest row of an object's history is never found redundant, so the direct scan never deletes it; batch mode as written can still delete it (see Findings) |
| Scan.EmptyWindowFindsNothing | simple_history/management/commands/clean_duplicate_history.py:144-146 | an empty window, and so an empty history, finds nothing, even when `extra_one` exists |
| Scan.TieComparesBoundaryWithItself | simple_history/management/commands/clean_duplicate_history.py:136-139 | when exactly one row is dated `stop_date`, it is both the oldest windowed row and `extra_one`, and the last comparison lists it whatever its older neighbour holds |
| Scan.TieDeletesChangedBoundary | simple_history/management/commands/clean_duplicate_history.py:137-139 | a concrete history where the row dated `stop_date` differs from its older neighbour and is still listed; with the strict boundary nothing is listed |
| Scan.TieTwoRowsDeletesWindow | simple_history/management/commands/clean_duplicate_history.py:137-139 | a concrete history with two rows dated `stop_date` that differ from the older row before it: both are listed, the older of them compared with the newer one as `extra_one` |
| Table.InstanceDuplicatesFromHistory | simple_history/management/commands/clean_duplicate_history.py:148-152 | every row the scan of an object lists comes from that object's history |
| Batching.FloorDiv | simple_history/management/commands/clean_duplicate_history.py:98 | Python's `//` on integers: the quotient rounded toward negative infinity, for either sign of the divisor |
| Batching.FloorMod | simple_history/management/commands/clean_duplicate_history.py:99 | Python's `%` takes the sign of the divisor and is smaller than it in magnitude |
| Batching.BatchCount | simple_history/management/commands/clean_duplicate_history.py:98-100 | `batch_count` is ceil(n / batch_size) for a positive size, at most zero for a negative size, and a ZeroDivisionError for size zero |
| Batching.ChunksFlatten | simple_history/management/commands/clean_duplicate_history.py:111-116 | the batches, concatenated in order, give back the deletion list |
| Batching.ChunksShape | simple_history/management/commands/clean_duplicate_history.py:111-116 | every batch is non-empty and at most `batch_size` long, and every batch but the last is full |
| Batching.ChunksCount | simple_history/management/commands/clean_duplicate_history.py:98-116 | there are exactly `batch_count` batches |
| Batching.ChunksStep | simple_history/management/commands/clean_duplicate_history.py:111-116 | the batches from `batch_start` on are the slice up to `min(batch_start + batch_size, n)`, then the batches after it |
| Batching.BatchBounds | simple_history/management/commands/clean_duplicate_history.py:106-112 | inside the loop the batch size is positive and every slice starts before the end of the list |
| Table.HistoryTable.Delete | simple_history/management/commands/clean_duplicate_history.py:182 | `entry1.delete()` removes exactly the row with that primary key; a table whose rows are stored under their own `history_id` stays so, and no remaining row has the deleted key |
| Table.HistoryTable.DeleteWhereIdIn | simple_history/management/commands/clean_duplicate_history.py:117-121 | deleting a batch removes exactly the rows whose `id` column is in the batch and keeps the others unchanged; a table stored under `history_id` stays so |
| Table.WithoutIdsAppend | simple_history/management/commands/clean_duplicate_history.py:106-121 | deleting two batches by `id` in turn is deleting their concatenation |
| Table.ObjectIdBatchRemovesWholeHistory | simple_history/management/commands/clean_duplicate_history.py:189 | as written, once one row of an object is redundant, batch deletion by `id` removes every row of that object's history |
| Table.ObjectIdBatchLosesDistinctRows | simple_history/management/commands/clean_duplicate_history.py:117 | a concrete table where direct deletion removes one row, while batch deletion by `id` empties the table |
| Table.DeleteBatchesByKeyFlatten | simple_history/management/commands/clean_duplicate_history.py:106-121 | deleting batches of primary keys in turn is deleting their concatenation |
| Table.KeyBatchesMatchDirectDeletion | simple_history/management/commands/clean_duplicate_history.py:186-191 | with primary keys collected, batch deletion leaves exactly the table that direct deletion of the same redundant rows leaves, for any positive batch size |
| CleanDuplicateHistory.DeletionList.Append | simple_history/management/commands/clean_duplicate_history.py:189 | `deletion_list.append` adds the id at the end and changes nothing else |
| CleanDuplicateHistory.Found | simple_history/management/commands/clean_duplicate_history.py:77-82 | `m_qs.count()` is at most the table size, and is zero (the model is skipped) exactly when every row is dated before `stop_date`; without a window, exactly when the table is empty |
| CleanDuplicateHistory.Command.constructor | simple_history/management/commands/clean_duplicate_history.py:48-49 | the command keeps the verbosity and excluded fields it was given, and nothing has been written yet |
| CleanDuplicateHistory.Command.Log | simple_history/management/commands/clean_duplicate_history.py:174-176 | a message is written exactly when the verbosity reaches its level |
| CleanDuplicateHistory.Command.CheckAndDelete | simple_history/management/commands/clean_duplicate_history.py:178-184 | returns 1 exactly when the diff is empty; deletes `entry1` exactly then, and never on a dry run |
| CleanDuplicateHistory.Command.CheckAndBatch | simple_history/management/commands/clean_duplicate_history.py:186-191 | returns 1 exactly when the diff is empty; appends exactly `entry1.id` then and leaves the list unchanged otherwise |
| CleanDuplicateHistory.Command.ProcessInstance | simple_history/management/commands/clean_duplicate_history.py:132-172 | `entries_deleted` is the number of redundant rows of the object's chain. Batch mode appends their `id`s, in order, and deletes nothing; otherwise the table loses exactly their primary keys, or nothing on a dry run |
| CleanDuplicateHistory.Command.ScanIntoBatch | simple_history/management/commands/clean_duplicate_history.py:143-152 | the batch scan counts the redundant rows of the chain and appends exactly their `id`s, newest first |
| CleanDuplicateHistory.Command.BatchWindowPairs | simple_history/management/commands/clean_duplicate_history.py:144-150 | the batch loop over the window counts and lists each pair of neighbours with an empty diff |
| CleanDuplicateHistory.Command.ScanAndDelete | simple_history/management/commands/clean_duplicate_history.py:157-168 | the direct scan counts the redundant rows of the chain and deletes exactly them, or nothing on a dry run |
| CleanDuplicateHistory.Command.DeleteWindowPairs | simple_history/management/commands/clean_duplicate_history.py:160-166 | the direct loop over the window counts and deletes the newer row of each pair of neighbours with an empty diff |
| CleanDuplicateHistory.Command.DeleteInBatches | simple_history/management/commands/clean_duplicate_history.py:97-126 | the slices are exactly the reference batches of the list, with one pause after every batch but the last when `batch_sleep` is positive. The table loses exactly the rows whose `id` is listed. A zero size raises, and a negative size deletes nothing |
| CleanDuplicateHistory.Command.ProcessInstances | simple_history/management/commands/clean_duplicate_history.py:94-95 | scanning every object with one shared deletion list lists or deletes exactly the redundant rows of all of them, in order |
| CleanDuplicateHistory.Command.ProcessModel | simple_history/management/commands/clean_duplicate_history.py:72-130 | an empty window or a dry run leaves the table unchanged. Otherwise non-batch mode deletes exactly the redundant rows, and batch mode deletes by `id` in the reference batches of the collected list |

## Left out

- The Django ORM is not modelled as such. Querysets, `.filter`, `.first()`, `.iterator()` and `.count()` become functions on sequences and maps, and `delete()` becomes removal from a map.
- Each query is read once, as a sequence, when the command reaches it. Concurrent writers to the table are not modelled.
- `transaction.atomic` is not modelled. Atomicity and rollback are framework behaviour.
- `timezone.now()` and the computation of `stop_date` from `--minutes` are not modelled. `stop_date` is an input; `None`, or zero minutes, is `None`.
- `time.sleep` is modelled only as a counted pause.
- The text of the log messages is not modelled. `Command.Log` keeps the verbosity gate and what was written, and the scan methods do not log.
- Argument parsing, `handle`, model discovery (`_handle_model_list`, `_auto_models`) and the base command are not modelled. They are command-line plumbing whose helpers live in another file.
- The outer loop over models is not modelled. `ProcessModel` is one iteration; models do not share any state.
- The body of `diff_against` is not part of this model. It is modelled as "some field outside `excluded_fields` is missing on one side or has different values".
- `utils.get_history_manager_for_model` is not part of this model. Each object's history is given as a newest-first sequence.
- A missing `--excluded_fields` option (`None`) is modelled as the empty set.
- CleanDuplicateHistory.Command.ProcessModel: the objects' histories are a parameter, not derived from the table's rows. `Found` counts the rows of the table in the window.
- CleanDuplicateHistory.Command.ProcessModel: the `pk__in` filter on `model_query` under a time window is not modelled. An object without a row in the window scans nothing (`Scan.EmptyWindowFindsNothing`), so the filter changes no result.
- Integer widths are not modelled. Python integers are unbounded, as are Dafny's.

## Findings

| source | as written | input that shows it | evidently intended | confidence | as-written member | corrected member |
|---|---|---|---|---|---|---|
| simple_history/management/commands/clean_duplicate_history.py:138-139 | The window keeps rows with `history_date >= stop_date`, and `extra_one` is the newest row with `history_date <= stop_date`. When some row is dated exactly `stop_date`, `extra_one` is the newest such row, which is also in the window. The oldest windowed row is then compared with a row of its own date (itself, when only one row has that date), and the row before `stop_date` is never reached. With exactly one such row, that row is always found redundant. | Two rows, dated 10 with `name = "new"` and dated 5 with `name = "old"`, and `stop_date = 10`: the newer row is deleted although it differs from the older one. With rows a, b dated 10 (both `"new"`) and c dated 5 (`"old"`), both a and b are found redundant. | `extra_one` is the newest row dated strictly before `stop_date`, so the last comparison is with the true older neighbour. | not executed | Scan.TieDeletesChangedBoundary | Window.StrictBoundaryChainIsPrefix |
| simple_history/management/commands/clean_duplicate_history.py:189 | Batch mode appends `entry1.id`, which in a historical table is the tracked object's id rather than the row's primary key `history_id`. `filter(id__in=...)` then deletes every history row of that object. | Three rows of object 7 with values 1, 1, 0, newest first. Direct deletion removes only the newest row. Batch deletion removes all three. | Collect `entry1.history_id` (the `pk`) and delete by primary key, which leaves the same table as direct deletion. | not executed | Table.ObjectIdBatchLosesDistinctRows | Table.KeyBatchesMatchDirectDeletion |

The command model (`CleanDuplicateHistory`) reproduces both behaviours as
written, so that each of its contracts describes the shipped code. The
corrected definitions, `Window.ExtraBefore` and `Table.DeleteBatchesByKey`,
carry the intended properties.
