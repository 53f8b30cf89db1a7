# radar-logger consumer, modelled in Dafny

radar-logger connects to a bicycle rear-view radar over Bluetooth. It puts every
target the radar reports (threat id, speed, distance) on a queue. A consumer
thread takes the targets off the queue. It groups them into one window of samples
per threat id and writes one JSON summary per finished window to a data file.

This project models that consumer and its summary function from `src/main.py`.
It also models the two string checks around the radar's sticker id.

- `summaries.dfy` (module `Summaries`) models `calculate_summary`. A summary
  holds the earliest timestamp, the fastest speed, the "95% max", the average
  speed, and the (speed, distance) pairs in arrival order.
- `consumer.dfy` (module `Consumer`) models `consume_data_queue` as a class
  `Consumer` whose fields are the loop's state:
  - `data_dict` as a map plus its key insertion order;
  - `last_timestamp`;
  - the data file, the stream file and the console, as sequences appended to.

  The queue is a sequence of passes. Each pass carries the second read at the
  top of that pass and what the queue gave: a measurement, the shutdown
  sentinel, a timeout (`queue.Empty`) or a `KeyboardInterrupt`.

  On every pass:
  1. A measurement is traced (printed and/or written, each behind its flag) and
     appended to its threat id's window.
  2. Then, if the second has changed, the staleness sweep runs. It walks a copy
     of the dictionary in key order. Each window whose newest sample is more
     than 10 seconds old has its summary written and is deleted.

  The sentinel writes the summary of every remaining window and ends the loop.
  An interrupt ends the loop with no flush.
- `sticker.dfy` (module `Sticker`) models:
  - the `--sticker_id` validation: 9 characters, all alphanumeric;
  - the device match: the id's last five characters occur in the advertisement
    text.

The central invariant is `Consumer.Consumer.Valid`. For every threat id, the
(speed, distance) pairs written to the data file, followed by those still pending
in its window, are exactly the pairs that arrived for it, in arrival order. So:

- nothing is lost or duplicated while the loop runs;
- what has been written is always a prefix of what arrived;
- after the sentinel's flush, what has been written is exactly what arrived.

Points where the model follows the code rather than what its names suggest:

- "95% max" is `sorted(speeds, reverse=True)[int(n * 0.95)]`. Counted from the
  fastest sample, this is a speed near the slowest end of the window: at most
  `int(n * 0.95)` samples are faster than it. The key name suggests the top
  speed after dropping the fastest 5%, which would be index `int(n * 0.05)`.
- The JSON summary holds no threat id. The model tags each record with the id of
  the window it summarises, only so that properties can be stated per id.
- The sentinel's flush writes the remaining windows but does not delete them
  from the dictionary. The loop ends right after, so this is not observable.

## Model

| member | source | states |
|---|---|---|
| Summaries.CalculateSummary | src/main.py:67-80 | "max" is a speed of the window and no speed exceeds it. "95% max" is a speed of the window, is at most "max", and has at most k faster speeds and at least k+1 speeds at least as fast, for k = int(n*0.95). The average lies between the slowest speed and "max". "timestamp" is a timestamp of the window and no sample is earlier. "data" has one (speed, distance) pair per sample, in order. A single sample gives max = 95% max = average = its speed. |
| Summaries.Max95 | src/main.py:69-71 | The element at index int(n*0.95) of the descending sort is one of the speeds. At most int(n*0.95) speeds exceed it, and at least int(n*0.95)+1 are at least it. |
| Summaries.Max95Unique | src/main.py:71 | Any speed with those two counts equals the summary's "95% max": the counts characterise it. |
| Summaries.CountsMonotone | src/main.py:71 | For lo < hi, the number of values at least hi never exceeds the number above lo. |
| Summaries.Index95 | src/main.py:71 | The index int(n*0.95) is always within a non-empty list (k < n). |
| Summaries.TwoSampleWindow | src/main.py:67-80 | For the window [(0,20,50), (1,25,60)], the summary has timestamp 0, max 25, 95% max 20 (the slower sample), an average between 20 and 25, and data [(20,50), (25,60)]. |
| Summaries.SortDesc | src/main.py:69 | The result is a permutation of the speeds (same multiset, same length) and is in descending order. |
| Summaries.Insert | src/main.py:69 | Inserting into a descending list adds exactly that value and keeps the list descending. |
| Summaries.DescendingHead | src/main.py:70 | The first element of a descending permutation of the speeds is one of them and is at least every speed. |
| Summaries.SortCounts | src/main.py:69 | Sorting keeps the number of values above (and at least) any threshold. |
| Summaries.InsertCounts | src/main.py:69 | Insertion raises each threshold count by exactly the count of the inserted value. |
| Summaries.DescendingRank | src/main.py:71 | In a descending list, at most k values exceed r[k] and at least k+1 are at least r[k]. |
| Summaries.MeanBetween | src/main.py:72 | sum(speeds)/len(speeds) lies between min(speeds) and max(speeds). |
| Summaries.Mean | src/main.py:72 | The average times the number of speeds is their sum (true division, over the reals). |
| Summaries.SumBetween | src/main.py:72 | If every value is in [lo, hi], then n*lo <= sum <= n*hi. |
| Summaries.QuotientBetween | src/main.py:72 | If n*lo <= total <= n*hi with n > 0, the real quotient total/n lies in [lo, hi]. |
| Summaries.Lowest | src/main.py:73 | `min` of a non-empty list is one of its elements and at most every element. |
| Summaries.Highest | src/main.py:127 | `max` of a non-empty list is one of its elements and at least every element. |
| Summaries.Readings | src/main.py:79 | "data" has one pair per sample, the i-th being (speed, distance) of the i-th sample. |
| Summaries.ReadingsAppend | src/main.py:114 | Appending a sample to a window appends its pair to the window's "data". |
| Consumer.StaleIds | src/main.py:126-130 | An id is stale exactly when it has a window whose newest timestamp is more than 10 seconds before the current second. |
| Consumer.Stale | src/main.py:127-130 | A window is stale exactly when every one of its samples is more than 10 seconds older than the current second. |
| Consumer.SweepPass | src/main.py:126-138 | Walking a copy of the dictionary in key order: the remaining windows are the old ones minus exactly the stale ones; the key order keeps the non-stale keys in their order; the records written are the summaries of the stale windows in key order. The remaining keys are distinct and are exactly the remaining windows. |
| Consumer.Consumer.Sweep | src/main.py:126-138 | The dictionary loses exactly its stale windows, and the data file gains their summaries in key order. The conservation invariant is kept. |
| Consumer.Consumer.Tick | src/main.py:123-138 | In the second last checked, windows, key order and data file are unchanged. In a new second, `last_timestamp` becomes that second; the windows lose exactly the stale ones; the key order keeps the others in order; the data file gains the stale windows' summaries in key order. The new state is `TickStep` of the old one. The invariant is kept. |
| Consumer.Consumer.Accept | src/main.py:112-114 | The id's window (created empty if absent) gets the triple appended at its end. Every other window is unchanged. A new id goes last in key order. The new state is `AcceptStep` of the old one. The invariant is kept. |
| Consumer.Consumer.Trace | src/main.py:105-109 | A trace line is printed when `print_stream` is set and written when `write_stream` is set. |
| Consumer.Consumer.constructor | src/main.py:85-86 | A new consumer starts with an empty dictionary, `last_timestamp` at the given second, and nothing written, printed or stored; the invariant holds. |
| Consumer.Consumer.Pass | src/main.py:88-138 | A pass that does not end the loop traces and stores a measurement (a timeout stores nothing), then runs the once-a-second check: the new windows, key order, `last_timestamp` and data file are `PassStep` of the old ones. The trace lines and stored measurements grow by that entry only. The invariant is kept. |
| Consumer.Consumer.FlushAll | src/main.py:93-102 | The sentinel writes one summary per remaining window, in key order. Afterwards, every id's written pairs are exactly the pairs that arrived for it. |
| Consumer.FlushPass | src/main.py:96-102 | The flush loop writes the summary of every window, in key order. |
| Consumer.AcceptStep | src/main.py:112-114 | Storing a measurement: the id's window becomes its old window (empty if absent) plus the new sample; every other window is unchanged; `last_timestamp` and the data file are unchanged; windows stay non-empty and the key order stays distinct and complete. |
| Consumer.TickStep | src/main.py:123-138 | The check: in the second last checked, nothing changes. In a new second, the remaining windows are exactly the old non-stale ones, unchanged; `last_timestamp` becomes the second. Windows stay non-empty and the key order stays distinct and complete. |
| Consumer.TickStepWrites | src/main.py:126-136 | In a new second, the data file keeps what it held and gains exactly one record per stale window and none for any other id, each the summary of its own window. |
| Consumer.PassStep | src/main.py:88-138 | A pass keeps windows non-empty and the key order distinct and complete, and leaves `last_timestamp` at the pass's second. |
| Consumer.Passes | src/main.py:87-138 | A run of passes keeps windows non-empty and the key order distinct and complete; after a non-empty run, `last_timestamp` is the second of its last pass. |
| Consumer.PassesAppend | src/main.py:87-138 | The fold over the first i+1 passes is pass i applied to the fold over the first i. |
| Consumer.FlushStep | src/main.py:93-102 | The flush leaves the dictionary, the key order and `last_timestamp` unchanged, keeps what the data file held, and appends exactly one record per remaining window. |
| Consumer.Consumer.RunPasses | src/main.py:87-138 | The loop runs exactly the passes before the first sentinel or interrupt. The state afterwards is the fold of `PassStep` over them (`Passes`). It traces and stores exactly their measurements. The invariant is kept. |
| Consumer.Consumer.Run | src/main.py:87-138 | The final windows, key order, `last_timestamp` and data file are the fold of the passes before the first stop, followed by the flush when that stop is the sentinel (`Outcome`). It traces and stores exactly the measurements before the stop. On the sentinel, every id's written pairs are exactly what arrived. On an interrupt or the end of input, the invariant still holds. |
| Consumer.ConsumeDataQueue | src/main.py:82-138 | From an empty dictionary, the data file is the one `Outcome` computes. What is written for each id is always a prefix of what arrived for it. When the loop ends on the sentinel, it is all of it. The console and stream file hold one line per measurement before the stop. |
| Consumer.ReusedIdStartsFresh | src/main.py:137-138 | After a sweep deletes an id's stale window, the next measurement for that id starts a window holding only itself. |
| Consumer.EmittedOncePerPick | src/main.py:126-138 | A pass writes exactly one record per picked key and none for any other id. Every record is the summary of its own window. |
| Consumer.DeliveredEmitted | src/main.py:132-136 | The pairs a pass writes for an id are its whole window if the id is picked, and nothing otherwise. |
| Consumer.EmitConserves | src/main.py:126-138 | Writing the picked windows and deleting them keeps every arrived pair written once or pending. |
| Consumer.AcceptConserves | src/main.py:112-114 | Appending a measurement to its window keeps every arrived pair written once or pending. |
| Consumer.AcceptKeepsValid | src/main.py:112-114 | Storing a measurement keeps windows non-empty, key order distinct and complete, and pairs conserved. |
| Consumer.FlushDelivers | src/main.py:93-102 | Once every window is written, each id's written pairs are exactly the arrived ones. |
| Consumer.DeliveredIsPrefix | src/main.py:82-138 | Under conservation, what has been written for an id is a prefix of what arrived for it. |
| Consumer.KeptKeys | src/main.py:138 | After deleting the picked windows, the kept key order is distinct and lists exactly the remaining windows. |
| Consumer.KeptMember | src/main.py:138 | A key is kept exactly when it was listed and not picked. |
| Consumer.PickedAll | src/main.py:126 | Visiting every key of the dictionary reaches every picked window. |
| Consumer.StopIndex | src/main.py:93-103 | The first pass holding the sentinel or an interrupt (or the end of input): every earlier pass is neither. |
| Sticker.StickerIdRejected | src/main.py:29-30 | An absent id is accepted. A given id is rejected when its length is not 9. An accepted id is 9 alphanumeric characters. A rejected one has the wrong length or a non-alphanumeric character. |
| Sticker.AllAlnum | src/main.py:29 | True exactly when every character is a letter or a digit. |
| Sticker.LastFive | src/main.py:52 | `s[-5:]` has length min(5, len(s)) and is a suffix of `s`. |
| Sticker.Contains | src/main.py:52 | `pattern in text` holds exactly when the pattern occurs at some index of the text. |
| Sticker.DeviceMatches | src/main.py:50-54 | A device matches exactly when the sticker id's last five characters (all of it, if shorter) occur in its advertisement text. |
| Sticker.AcceptedIdMatchesLastFive | src/main.py:29-53 | For an accepted id, the match looks for exactly its characters 5 to 9, which are five alphanumeric characters. |
| Sticker.ShortIdMatchedWhole | src/main.py:52 | A sticker id shorter than five characters is matched whole. The empty id matches every device. |

## Left out

- Bluetooth, the BLE scanner and the radar decoding (`bleak`, `main`, the producer side of the queue): the model starts at the items the queue delivers.
- Argument parsing beyond the sticker-id check, the `--runtime` check and timer, config-file loading and saving, and `get_device_address`: they are I/O with no logic to verify beyond the two string predicates.
- Threads and the queue's blocking are not modelled. The loop consumes a given sequence of passes. The timeout is the `Timeout` item and `KeyboardInterrupt` is the `Interrupt` item.
- Clock and time formatting: the second read at the top of a pass is part of the input. Timestamps are whole epoch seconds rather than `"%Y-%m-%d %H:%M:%S"` local-time strings. So the string `min`/`max` (which orders that fixed-width format chronologically) and the `strptime`/`mktime` difference become integer comparisons. Daylight-saving jumps are not modelled.
- JSON and text formatting of the data and stream files: a record is the summary value; a trace line is the second and the entry.
- Summaries.CalculateSummary: the average is exact real division rather than a float, and the index `int(n * 0.95)` is computed as `n * 95 / 100` rather than with the float product. For some n the float product may round to a different integer than the exact quotient; the model does not capture that.
- Summaries.TwoSampleWindow: states the average only as lying between 20 and 25, not as the exact 22.5.
- Sticker.IsAlnum: covers ASCII letters and digits only; Python's `str.isalnum` also accepts other Unicode letters and digits.
- Consumer.Consumer.Sweep: works on local copies of the dictionary and the key order and stores them back when the pass is over, instead of deleting entries from the field one by one. Nothing else reads the dictionary during the pass, so the final state is the same.
- Consumer.Consumer.FlushAll: writes the records of the flush together, after the loop has built them. The source appends them to the file one by one.
- A failed `open` or write of the data or stream file raises an exception that nothing catches (the sweep's writes at lines 132-136 lie outside the `try`), so it ends the consumer thread. The model's appends always succeed.
- The console messages ("Starting consumer thread", "Received sentinel…") are not modelled.
