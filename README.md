# Toloka-Kit metrics and key utilities, modelled in Dafny

This project models two parts of toloka-kit.

The first is the metric classes of `src/metrics/metrics.py`. A metric has a bound client
(`bind_client`) and a display name derived from its class name (`beautiful_name`).
The model covers four metrics:

- `AssignmentEventsInPool` configures one metric name per assignment status.
  It builds one cursor per configured name and groups each cursor's new events by
  event time.
- `PoolCompletedPercentage` and `AssignmentsInPool` are pollers. Each keeps at most one
  analytics operation outstanding. Every call polls that operation. When it has
  completed, the call clears it and turns the responses of a successful operation into
  points. With no operation outstanding, the call issues the next one.
- `Balance` reports the requester's balance under one name.

The second is the key and string helpers of `src/util/__init__.py`:

- `rename_dict_keys`, with its collision error;
- the snake_case/camelCase conversions and the `make_*_dict_keys` dict versions;
- the post-order dict traversal `traverse_dicts_recursively`;
- `identity`.

## How the model is laid out

- Python strings are `seq<char>`. Case handling follows the ASCII behaviour of
  `isupper`, `lower`, `title` and `capitalize` (module `Ascii`).
- A Python dict that is built and returned in insertion order is a `seq<(string, V)>`
  without repeated keys (module `UtilDicts`). A metric's result dict is a `map`.
- A JSON-like value is the `Json` datatype (module `UtilTraverse`): a dict (keys and
  values), a list, or a scalar.
- Each metric class is a Dafny `class`. The attrs-generated `__init__` is its
  constructor. `__attrs_post_init__` is a `PostInit` method that the caller runs next.
  It returns `Fail(DuplicateMetricNames)` where the source raises ValueError.
- What a metric inherits from `BaseMetric` (its client and its class name) is a
  `BaseMetric` object held in the field `base`. `BindClient` updates these objects.
- The configured names of a metric form a `NameTable` from status to name. A status
  whose name is None is absent from it. `_status_dict` and `_analytics_dict` are fixed
  status orders.
- `AssignmentEventsInPool`:
  - Its cursors are the `CursorConfig` values it creates each cursor with, cached in the
    `cursors` field.
  - The events a cursor yields in one call are an input sequence.
  - In join mode, a non-empty batch is an error outcome. The source reads
    `event.event_time` from the `event` variable, which still holds None, because the
    generator's loop variable does not leak out in Python 3.
- The client of the pollers is a `Remote` value passed to each call. It gives the
  operation `get_operation` returns for an id, and the id `get_analytics` returns for a
  list of requests. Each `GetLines` also returns the remote calls it made.
- The current time ("now") and the requester's balance are parameters.
- Small facts about concatenating and slicing sequences, shared by several proofs, are in
  module `Seqs`.

## Model

| member | source | states |
|---|---|---|
| Ascii.Lower | src/util/__init__.py:36 | `c.lower()` turns an upper-case letter into a lower-case one and leaves every other character alone |
| Ascii.Upper | src/util/__init__.py:32 | the upper-casing `str.title` applies turns a lower-case letter into an upper-case one and leaves every other character alone |
| Ascii.CaseRoundTrip | src/util/__init__.py:32-36 | lower-casing undoes upper-casing on lower-case letters, and the reverse holds for upper-case letters |
| Ascii.LowerAll | src/metrics/metrics.py:109 | lower-casing a string lower-cases each character in place and keeps the length |
| UtilCase.Split | src/util/__init__.py:31 | `split('_')` gives one more piece than there are underscores |
| UtilCase.SplitProps | src/util/__init__.py:31 | no piece of `split('_')` holds an underscore; the first piece is a prefix of the name; joining the pieces with `_` gives the name back |
| UtilCase.TitleFromChars | src/util/__init__.py:32 | `str.title` character by character: non-letters are kept; a letter after a non-letter (or at the start) is upper-cased; a letter after a letter is lower-cased |
| UtilCase.TitleUnderscores | src/util/__init__.py:32 | title-casing a segment neither adds nor removes underscores |
| UtilCase.TitleAllShape | src/util/__init__.py:32 | the joined title-cased segments are as long as the segments and contain no underscore |
| UtilCase.CamelFromSnakeShape | src/util/__init__.py:30-32 | `camel_case_from_snake_case` has no underscore in its result; it begins with the first segment verbatim; it is shorter than the name by the number of underscores |
| UtilCase.SnakeFromCamel | src/util/__init__.py:35-36 | the `snake_case_from_camel_case` output is as long as the name plus the number of its upper-case letters |
| UtilCase.SnakeFromCamelLower | src/util/__init__.py:35-36 | the `snake_case_from_camel_case` output has no upper-case letter |
| UtilCase.SnakeAppend | src/util/__init__.py:36 | the conversion works character by character: converting a concatenation concatenates the conversions |
| UtilCase.SnakeOfNoUpper | src/util/__init__.py:36 | a name without upper-case letters is unchanged |
| UtilCase.SnakeCamelRoundTrip | src/util/__init__.py:30-36 | for lower-case letter segments joined by single underscores, none empty, camelCase then snake_case gives the name back |
| UtilCase.CamelSnakeRoundTrip | src/util/__init__.py:30-36 | for names of ASCII letters only, snake_case then camelCase gives the name back |
| UtilDicts.RenameDictKeys | src/util/__init__.py:11-19 | `rename_dict_keys` fails exactly when two keys rename to the same key. The error names the first key that repeats. Otherwise the result is every pair with its key replaced by `mapping.get(k, k)` and its value kept, in order, with no key repeated |
| UtilDicts.RenameEmptyMapping | src/util/__init__.py:14 | with an empty mapping nothing collides and the result equals the input |
| UtilDicts.RenamedLookup | src/util/__init__.py:14-17 | without collisions, each renamed key looks up the value of its original key |
| UtilDicts.InsertProps | src/util/__init__.py:23 | dict assignment `d[k] = v`: `k` now holds `v`; other keys are unchanged; an existing key keeps its position, so the key order is the same as before; a new key is appended |
| UtilDicts.RekeyLookup | src/util/__init__.py:22-27 | a dict comprehension over rekeyed pairs is a dict in which every key holds the value of the LAST input pair converting to it |
| UtilDicts.RekeyKeys | src/util/__init__.py:22-27 | the keys of the result are exactly the converted input keys |
| UtilDicts.RekeyInjective | src/util/__init__.py:22-27 | when no two keys convert alike, the result is the input pairs with converted keys and the same values, in order |
| UtilDicts.LastWithAt | src/util/__init__.py:22-27 | the pair winning a converted key is the last input pair with that converted key |
| UtilDicts.MakeCamelFromSnakeDictKeys | src/util/__init__.py:22-23 | every key is converted to camelCase and keeps its value; on a collision the later value wins |
| UtilDicts.MakeSnakeFromCamelDictKeys | src/util/__init__.py:26-27 | every key is converted to snake_case and keeps its value; on a collision the later value wins |
| UtilDicts.SnakeCollisionLaterWins | src/util/__init__.py:26-27 | `{"aB": 1, "a_b": 2}` becomes `{"a_b": 2}`: no error, unlike `rename_dict_keys` |
| UtilTraverse.TraverseCount | src/util/__init__.py:39-45 | the traversal yields every dict found in the value and nothing else, one item per dict occurrence; scalars yield nothing |
| UtilTraverse.TraverseComplete | src/util/__init__.py:39-45 | a value is yielded exactly when it is the value itself, being a dict, or a dict found in one of its values or list items (`NestedDict`, defined apart from the traversal) |
| UtilTraverse.TraverseListCount | src/util/__init__.py:43-45 | a list yields every dict found in its items and nothing else, one item per dict occurrence, and each item's walk sits between the walks of the items before and after it |
| UtilTraverse.TraverseListSiblings | src/util/__init__.py:43-45 | the items of a list are walked in order: item `k`'s walk follows the walks of the items before it, starting after one entry per dict found in them, and precedes the walks of the items after it |
| UtilTraverse.TraverseYieldsNestedDicts | src/util/__init__.py:39-45 | everything yielded is a dict: the value itself or one nested inside it |
| UtilTraverse.TraverseListYieldsNestedDicts | src/util/__init__.py:43-45 | everything a list yields is a dict: one of its items or nested in one |
| UtilTraverse.TraversePostOrder | src/util/__init__.py:40-42 | post-order: the traversal of each yielded dict ends exactly at that dict's position, so its descendants come right before it |
| UtilTraverse.TraverseListPostOrder | src/util/__init__.py:43-45 | the same post-order property for the traversal of a list |
| MetricsBase.BindClient | src/metrics/metrics.py:64-67 | `bind_client` sets the client of every metric in the list and returns the same list |
| MetricsBase.WordsConcat | src/metrics/metrics.py:108 | the pieces of `re.split(r'([A-Z][a-z]*)', name)` kept by `if word` concatenate back to the class name |
| MetricsBase.WordsShape | src/metrics/metrics.py:108 | each piece is a capital followed by its lower-case letters, or a non-empty gap without capitals (before, between or after the matches). A gap that is not the first piece follows a capitalised word and does not start with a lower-case letter |
| MetricsBase.WordsOfCapitalWords | src/metrics/metrics.py:108 | a name made only of capitalised words splits into exactly those words |
| MetricsBase.Capitalize | src/metrics/metrics.py:109 | `str.capitalize`: the first character upper-cased and all later ones lower-cased, the length kept |
| MetricsBase.BeautifulName | src/metrics/metrics.py:105-109 | `beautiful_name` is the words of the class name joined by single spaces, the first word capitalised and the others lower-cased. It has no upper-case letter after its first character, the first character is upper-case when the class name starts with a letter, and its length is the class name's plus one per space between words |
| MetricsBase.BeautifulNameSpacing | src/metrics/metrics.py:108-109 | for a class name without spaces, the pieces between the spaces of the beautiful name are its words, capitalised or lower-cased, each non-empty and space-free, so the spaces fall exactly on the word boundaries |
| MetricsBase.BeautifulNameExample | src/metrics/metrics.py:105-109 | `AssignmentEventsInPool` is displayed as `Assignment events in pool` |
| MetricsBase.BeautifulNameKeepsLetters | src/metrics/metrics.py:108-109 | for a class name without spaces, the beautiful name with its spaces removed is the capitalised class name |
| MetricsNames.LineNamesMembership | src/metrics/metrics.py:183-186 | `get_line_names` lists a name exactly when some status in the order has it configured |
| MetricsNames.LineNamesOrder | src/metrics/metrics.py:183-186 | `get_line_names` lists, in the status order, the name of every status that has one and nothing else: the k-th name belongs to the k-th configured position, the positions strictly increase, and every configured status has its position among them |
| MetricsNames.GatheredStatuses | src/metrics/metrics.py:194-196 | one status is gathered per truthy configured name |
| MetricsNames.GatheredStatusesNamed | src/metrics/metrics.py:194-196 | each gathered status is configured with the name gathered at the same position |
| MetricsNames.GatheredAreListed | src/metrics/metrics.py:194-196 | a name is gathered (given a cursor or a request) exactly when it is listed and not empty |
| MetricsNames.GatheredDistinct | src/metrics/metrics.py:180-196 | when the listed names are distinct, the gathered ones are too |
| MetricsNames.HasDuplicatesIff | src/metrics/metrics.py:180 | `len(names) != len(set(names))` holds exactly when two positions hold the same name |
| MetricsNames.ConfigureNamesOutcome | src/metrics/metrics.py:174-181 | post-init fails exactly when a configured name repeats. With no name configured it sets the defaults, and otherwise it keeps the names |
| MetricsNames.NoNamesListed | src/metrics/metrics.py:175-176 | with no status named, nothing is listed |
| MetricsEvents.Times | src/metrics/metrics.py:215 | the event times of a batch, one per event, in order |
| MetricsEvents.GroupByTime | src/metrics/metrics.py:212-216 | the grouping is empty exactly for an empty batch; its first point has the first event's time |
| MetricsEvents.GroupByTimeIsRunLength | src/metrics/metrics.py:213-216 | every count is at least 1; neighbouring points have different times; unfolding each point into `count` copies of its time gives exactly the batch's event times |
| MetricsEvents.GroupByTimeCounts | src/metrics/metrics.py:214 | the counts add up to the number of events in the batch |
| MetricsEvents.ExpandLength | src/metrics/metrics.py:214 | unfolding points gives as many times as the counts add up to |
| MetricsEvents.RunLengthUnique | src/metrics/metrics.py:213-216 | two groupings with positive counts and different neighbouring times that unfold to the same times are equal |
| MetricsEvents.GroupByTimeUnique | src/metrics/metrics.py:213-216 | the grouping is the only sequence of points with positive counts and different neighbouring times that unfolds to the batch's times |
| MetricsEvents.EventNames | src/metrics/metrics.py:156-161 | the six optional name arguments form the name table: a status is present exactly when its name is given, with that name |
| MetricsEvents.DefaultEventNamesListed | src/metrics/metrics.py:176-179 | the defaults list exactly the submitted, accepted and rejected event names, all different |
| MetricsEvents.InStatusOrder | src/metrics/metrics.py:165-172 | every status appears in the order of `_status_dict` |
| MetricsEvents.BuildCursorsShape | src/metrics/metrics.py:192-203 | one cursor per gathered name, in order. Each has that name, its status, the pool, the start time and the client of the moment |
| MetricsEvents.BuildCursorsSnoc | src/metrics/metrics.py:194-202 | each loop step of `_cursors` adds the cursor of one status exactly when its name is truthy |
| MetricsEvents.CursorLineOutcome | src/metrics/metrics.py:208-216 | a cursor's line fails exactly in join mode with a non-empty batch. It is empty exactly for an empty batch outside join mode. Outside join mode its counts add up to the batch size |
| MetricsEvents.CollectLines | src/metrics/metrics.py:206-217 | the result fails exactly when some cursor's line fails. Otherwise its keys are exactly the cursors' metric names, and each holds the line of that cursor's batch |
| MetricsEvents.AssignmentEventsInPool.constructor | src/metrics/metrics.py:156-163 | the pool, the six names and the join flag are stored and no cursor exists yet |
| MetricsEvents.AssignmentEventsInPool.PostInit | src/metrics/metrics.py:174-181 | the new names are exactly what the post-init configuration gives. A repeated name is the duplicate-names error and leaves the names unchanged. Success leaves a non-empty list of distinct names |
| MetricsEvents.AssignmentEventsInPool.GetLineNames | src/metrics/metrics.py:183-186 | `get_line_names` lists exactly the configured names, and is the listing over CREATED to EXPIRED whose order `LineNamesOrder` states |
| MetricsEvents.AssignmentEventsInPool.EnsureCursors | src/metrics/metrics.py:188-203 | the cursors are built once, on first use, for the gathered names, with the current time and client; later uses return the same cursors |
| MetricsEvents.AssignmentEventsInPool.GetLines | src/metrics/metrics.py:205-217 | `get_lines` fails exactly when some cursor's line fails, and then with the join-mode error. Otherwise its keys are exactly the gathered names, each holding its cursor's line. The cursor cache is built once |
| MetricsPollers.PercentLines | src/metrics/metrics.py:255-257 | a completed percentage operation gives a line exactly on success with at least one response. That line sits under the configured name and holds the one point of the last response |
| MetricsPollers.PoolCompletedPercentage.constructor | src/metrics/metrics.py:237-238 | the pool and the optional name are stored, and no operation is outstanding |
| MetricsPollers.PoolCompletedPercentage.PostInit | src/metrics/metrics.py:240-247 | a missing name becomes `completion_percentage` and a given one is kept, so `get_line_names` then lists exactly that one name |
| MetricsPollers.PoolCompletedPercentage.GetLines | src/metrics/metrics.py:249-261 | When nothing is outstanding, the call only issues a request. A pending operation gives `{}`, is kept, and no request is issued. A completed one is cleared, its lines are the percentage lines, and a new request is issued. An operation is outstanding afterwards |
| MetricsPollers.DefaultAssignmentNamesListed | src/metrics/metrics.py:307-310 | the defaults list exactly the submitted, accepted and rejected assignment names, all different |
| MetricsPollers.StatusOfKind | src/metrics/metrics.py:298-303 | the four count kinds map back to their statuses, and the completion-percentage kind to none |
| MetricsPollers.KindRoundTrip | src/metrics/metrics.py:298-303 | the request kind of a status maps back to that status |
| MetricsPollers.RequestsFor | src/metrics/metrics.py:319-327 | one request per truthy name |
| MetricsPollers.RequestsForShape | src/metrics/metrics.py:319-327 | the requests follow the gathered statuses in order. Each is for the pool and of the kind of its status |
| MetricsPollers.RequestsForSnoc | src/metrics/metrics.py:322-325 | each loop step adds the request of one status exactly when its name is truthy |
| MetricsPollers.LastForIsResponse | src/metrics/metrics.py:338-342 | a key has a response exactly when some response is filed under it, and that response is one of them |
| MetricsPollers.LastForIsLast | src/metrics/metrics.py:338-342 | the response kept for a key is the last one filed under it |
| MetricsPollers.FileResponses | src/metrics/metrics.py:338-342 | the loop fails exactly when some response has a kind outside the table, and then names the first such kind, which is itself outside the table. Otherwise each key holds the point of the last response filed under it, and only such keys are present |
| MetricsPollers.AssignmentsInPool.constructor | src/metrics/metrics.py:291-296 | the pool and the four names are stored, and no operation is outstanding |
| MetricsPollers.AssignmentsInPool.PostInit | src/metrics/metrics.py:305-312 | the new names are exactly what the post-init configuration gives for the four statuses. A repeated name is the error and leaves the names unchanged |
| MetricsPollers.AssignmentsInPool.GetLineNames | src/metrics/metrics.py:314-317 | `get_line_names` lists exactly the names configured for the four statuses, and is the listing over SUBMITTED to SKIPPED whose order `LineNamesOrder` states |
| MetricsPollers.AssignmentsInPool.Requests | src/metrics/metrics.py:319-327 | one request per gathered name, for the pool, of the kind of its status |
| MetricsPollers.AssignmentsInPool.AnalyticsRequests | src/metrics/metrics.py:319-327 | the loop over the four statuses builds exactly those requests |
| MetricsPollers.AssignmentsInPool.GetLines | src/metrics/metrics.py:329-346 | The same polling cycle as the percentage metric. On success each response is filed under the name configured for its kind, and the last one wins. An unknown kind fails with the KeyError after the operation was cleared and before a new request. An operation is outstanding after every call that does not fail |
| MetricsBalance.Balance.constructor | src/metrics/metrics.py:370 | the optional name and the client are stored |
| MetricsBalance.Balance.PostInit | src/metrics/metrics.py:372-379 | a missing name becomes `toloka_requester_balance` and a given one is kept, so `get_line_names` then lists exactly that one name |
| MetricsBalance.Balance.GetLines | src/metrics/metrics.py:381-387 | a missing or empty name is the ValueError, raised before the requester is asked. Otherwise there is one line under the name, holding the single point `(now, balance)` |

## Left out

- The streaming `AssignmentCursor`, whose source is not part of this model. A cursor is the `CursorConfig` it is created with plus the batch of events it yields now. Its watermark and the consumption of its events are not modelled.
- `AsyncMultithreadWrapper` and the asynchronous pipeline: concurrency, and their sources are not part of this model.
- `get_pool` and its `lru_cache`: `PoolBeautifulName` takes the private name and id of the fetched pool as parameters.
- The client's network calls (`get_operation`, `get_analytics`, `get_requester`, `get_pool`) are oracle inputs. Failures of these calls are not modelled.
- `Operation.Status` and `is_completed` (toloka.client.operations) are not part of this model. They are taken as PENDING, RUNNING, SUCCESS and FAIL, with completion meaning SUCCESS or FAIL.
- `datetime.utcnow()` is the parameter `now`. `AssignmentEventsInPool.GetLines`: the model reads the clock once per call, while the source reads it separately for the cursor start time and for each empty join-mode point.
- The `structure()` converter: a response's `finished` is already a time. `response['result']` (for assignment counts) and `response['result']['value']` (for the percentage) are both the integer `result`.
- `Decimal` balances are the opaque number `Amount`.
- The `cached_property` on `beautiful_name` and `_analytics_request`: both are recomputed on each use, which gives the same value because the names do not change after post-init.
- Calling `get_lines` or `beautiful_name` with no client bound (an AttributeError on None) is not modelled.
- `get_signature`: Python `inspect` reflection.
- `UtilTraverse.Identity`: `identity` returns its argument. With no property beyond that, it carries no contract.
- `MetricsBase.PoolBeautifulName`: the pool metrics' `beautiful_name` is the base name followed by the quoted private name and the id in parentheses. That concatenation is its definition, so it has no row of its own; the base name's properties are those of `BeautifulName`.
- `MetricsPollers.PoolCompletedPercentage.GetLineNames`: the one-element list of the percentage name, by definition. What it lists after post-init is stated by `PoolCompletedPercentage.PostInit`.
- `MetricsBalance.Balance.GetLineNames`: the one-element list of the balance name, by definition. What it lists after post-init is stated by `Balance.PostInit`.
- Unicode: `isupper`, `lower`, `title` and `capitalize` are modelled for ASCII only.
- The docstrings of `AssignmentsInPool` and `Balance` say ValueError is raised "if all metric names are set to None". The code instead sets defaults, and the model follows the code.
- Inheritance (`BasePoolMetric`, `BaseMetric`) is composition: each metric holds its `BaseMetric` in `base`.
- tests/streaming/test_pipeline.py exercises the pipeline and observers, which are not part of this model.
- The view of `_previous_operation` is reduced to its id, the only part the source reads.
