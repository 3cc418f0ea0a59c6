# OrderedFixedSizeSet: a verified model

This project models the small deduplication cache of the Slack assistant bot client: `OrderedFixedSizeSet` in `src/utils/ordered_fixed_size_set.py`. It is a bounded, insertion-ordered set of recently seen keys, such as event identifiers. Two fields are kept in step:
- `items` is a FIFO deque, created with `maxlen = maxsize`, that holds the keys oldest first.
- `item_set` is a hash set used for membership tests.

`add(x)` does nothing when `x` is already present, so the key does not move to the back. Otherwise, when the deque is full, it first pops the oldest key from the front and removes that key from the set. It then appends `x` and adds it to the set.

Files:
- `fixed_size_set_spec.dfy` (module `FixedSizeSetSpec`) describes the behaviour as functions on the sequence of keys:
  - `AddKey` is one call of `add`;
  - `AddAll` is any sequence of calls;
  - `Admitted` is an independent description of the same behaviour (see below);
  - `ListRepr` is the `str(list(...))` rendering.

  The lemmas relating these functions are in the same file.
- `ordered_fixed_size_set.dfy` (module `Utils`) holds the class `OrderedFixedSizeSet`. Its fields are `items: seq<T>`, `itemSet: set<T>` and the capacity `maxsize`. `Valid()` is the representation invariant:
  - `itemSet` is exactly the set of keys in `items`;
  - `items` has no duplicates;
  - `|items| <= maxsize`.

  `Add` changes the fields in place, and its contract ties the new `items` to `AddKey` of the old one.
- `fixed_size_set_scenarios.dfy` (module `FixedSizeSetScenarios`) gives concrete runs. With capacity 2, the runs are `a, b, c`, then `a, b, a` and `a, b, a, c`. With capacity 0, a single add fails.

The admission log `Admitted(maxsize, keys)` lists the keys that were not among the last `maxsize` logged keys when they arrived. `AddAllIsWindow` proves that, starting empty with `maxsize >= 1`, the set after any sequence of adds is exactly the last `maxsize` entries of that log, oldest first. So eviction is FIFO in admission order, and re-adding a remembered key never refreshes it. For example, with capacity 2, the keys `a, b, a, c` leave `[b, c]`, not `[a, c]`.

Two edge cases, as the code has them:
- The constructor's default capacity is 10 (line 5).
- With `maxsize == 0`, the first `add` of a key raises IndexError. The guard `len(items) >= maxsize` holds on the empty deque, so `popleft()` fails (lines 12-13). The model returns `Fail(PopFromEmptyDeque)` and leaves the state unchanged, as the exception does.

## Model

| member | source | states |
|---|---|---|
| Utils.OrderedFixedSizeSet.constructor | src/utils/ordered_fixed_size_set.py:5-8 | a new set has the given capacity (default 10), an empty deque and an empty hash set, and satisfies the representation invariant |
| Utils.OrderedFixedSizeSet.Add | src/utils/ordered_fixed_size_set.py:10-16 | keeps the invariant (set equals deque contents, no duplicates, length at most maxsize); new `items` is `AddKey` of the old; a present key changes neither field; a new key below capacity is appended and added to the set; a new key at capacity drops exactly the oldest key from both fields and is appended; fails exactly when the key is new and maxsize is 0, changing nothing; afterwards the key is a member |
| Utils.OrderedFixedSizeSet.Contains | src/utils/ordered_fixed_size_set.py:18-19 | the hash-set lookup answers exactly membership in the deque |
| Utils.OrderedFixedSizeSet.Len | src/utils/ordered_fixed_size_set.py:21-22 | the result is the deque length, equals the size of the hash set, and never exceeds maxsize |
| Utils.OrderedFixedSizeSet.Str | src/utils/ordered_fixed_size_set.py:24-25 | the listing is `[]` for an empty set, otherwise the keys oldest first, rendered and separated by ", ", between brackets |
| FixedSizeSetSpec.DequeAppend | src/utils/ordered_fixed_size_set.py:7 | appending to a deque with maxlen keeps it within maxlen, puts the new key last (unless maxlen is 0), brings in no other key, is a plain append below the bound, and at a non-zero bound drops exactly the leftmost entry before appending |
| FixedSizeSetSpec.AddKey | src/utils/ordered_fixed_size_set.py:10-16 | one add fails exactly when the key is new and maxsize is 0; on success the key is present, the length is at most maxsize, and no key other than the new one appears |
| FixedSizeSetSpec.AddPresentIsNoOp | src/utils/ordered_fixed_size_set.py:10-11 | adding a key already present leaves contents and order unchanged |
| FixedSizeSetSpec.AddIdempotent | src/utils/ordered_fixed_size_set.py:10-16 | adding the same key twice gives the same result as adding it once |
| FixedSizeSetSpec.AddNotFull | src/utils/ordered_fixed_size_set.py:12-16 | a new key below capacity is appended last, nothing is removed, and the length grows by exactly one |
| FixedSizeSetSpec.AddWhenFull | src/utils/ordered_fixed_size_set.py:12-16 | a new key at capacity removes exactly the oldest key, is appended last, and the length stays at maxsize |
| FixedSizeSetSpec.AddPreservesInvariant | src/utils/ordered_fixed_size_set.py:10-16 | one add keeps the deque free of duplicates and within maxsize |
| FixedSizeSetSpec.AddAll | src/utils/ordered_fixed_size_set.py:10-16 | any sequence of adds from a state within capacity stays within capacity |
| FixedSizeSetSpec.AddAllPreservesInvariant | src/utils/ordered_fixed_size_set.py:10-16 | from a valid state, any sequence of adds keeps the invariant, and fails exactly when maxsize is 0 and some key is added |
| FixedSizeSetSpec.WindowStep | src/utils/ordered_fixed_size_set.py:12-16 | one add on the last maxsize entries of the admission log gives the last maxsize entries of the log after that key arrives |
| FixedSizeSetSpec.AddAllIsWindow | src/utils/ordered_fixed_size_set.py:10-16 | from empty with maxsize >= 1, the set after any sequence of adds is exactly the last maxsize admitted keys, oldest first |
| FixedSizeSetSpec.AdmittedElems | src/utils/ordered_fixed_size_set.py:10-16 | every key ever added was admitted at least once, and only added keys are admitted |
| FixedSizeSetSpec.AdmittedDistinct | src/utils/ordered_fixed_size_set.py:10-16 | when all added keys are distinct, every one of them is admitted in order |
| FixedSizeSetSpec.AddAllDistinct | src/utils/ordered_fixed_size_set.py:12-16 | from empty, distinct keys leave exactly the last maxsize of them, oldest first |
| FixedSizeSetSpec.DistinctCard | src/utils/ordered_fixed_size_set.py:21-22 | a duplicate-free deque has as many entries as its set of keys |
| FixedSizeSetSpec.ListRepr | src/utils/ordered_fixed_size_set.py:24-25 | the rendering starts with `[` and ends with `]`; it is `[]` for no keys and `[k]` for the single key k |
| FixedSizeSetSpec.JoinReprsSnoc | src/utils/ordered_fixed_size_set.py:24-25 | the key added last is rendered last, after ", " |
| FixedSizeSetSpec.ListReprSnoc | src/utils/ordered_fixed_size_set.py:24-25 | rendering one more key inserts ", " and that key just before the closing bracket |
| FixedSizeSetScenarios.ScenarioEvictOldest | src/utils/ordered_fixed_size_set.py:12-16 | capacity 2, distinct keys a, b, c: a is evicted, [b, c] remain |
| FixedSizeSetScenarios.ScenarioReAdd | src/utils/ordered_fixed_size_set.py:10-11 | capacity 2, keys a, b, a: the second a changes nothing, leaving [a, b] |
| FixedSizeSetScenarios.ScenarioNoRefresh | src/utils/ordered_fixed_size_set.py:10-16 | capacity 2, keys a, b, a, c: a is not refreshed, so c evicts it, leaving [b, c] |
| FixedSizeSetScenarios.ScenarioZeroCapacity | src/utils/ordered_fixed_size_set.py:12-13 | capacity 0: the first add fails with the empty-deque pop error |

## Left out

- Capacities that are not natural numbers are not modelled, because the model types `maxsize` as a natural number. A negative capacity makes `deque(maxlen=-1)` raise ValueError in the constructor. A capacity of `None` is accepted by the constructor, but the first `add` then raises TypeError at the comparison on line 12.
- `maxsize` is a constant field in the model. The source never reassigns it after construction.
- `item_set.remove(old_item)` raising KeyError is not modelled. Under the invariant, the popped key is always in the set.
- Utils.OrderedFixedSizeSet.Str: the per-key `repr` is a parameter, because Python's `repr` of arbitrary keys is not modelled. Because that parameter could return an empty string, the contract does not state that the listing is `[]` only for an empty set.
- Utils.OrderedFixedSizeSet.Add: does not model hashing or the O(1) cost of the membership test. Only the resulting contents are modelled.
- Concurrent use of one instance from several threads is not modelled. The class has no locking.
- The rest of the repository is not part of this model:
  - the Slack API wrappers `src/core/slack_client.py` and `src/services/message_service.py` are forwarding calls into the vendor SDK;
  - the command-line scripts under `scripts/` do argument parsing, file I/O, `input()` loops and sleep-based polling;
  - configuration and logging are set up in `src/config/settings.py` and `src/utils/logger.py`;
  - `tests/test_send_message.py` holds mock-based tests.
- Event dispatch and handler registration are not modelled. `MessageService` (src/services/message_service.py:13-50) defines neither, although the scripts call `add_message_handler` (scripts/receive_and_save_file.py:105).
