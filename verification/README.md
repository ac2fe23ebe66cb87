# Jester routing core in Dafny

This project models the algorithmic core of the Jester PHP web framework:

- the generic, eager, order-preserving key/value collection `Stream`, with `ArrayList` and `Pair` (module `Standard`);
- the route table and the `/`-segment path matcher (module `Routes`);
- request intake and dispatch (module `Request`):
  - `init` truncates the URI at its query string and decodes the query;
  - `invoke` selects the first registered route whose method and path match, then calls its handler with the captured path variables or redirects to the fallback.

Supporting modules are `Text`, which holds the PHP string primitives `explode`, `implode` and `strpos` for a one-character separator, and `Wrappers`, which holds `Option` (a value that may be PHP `null`) and `Result` (an operation that may throw).

Modelling choices:
- A Stream is the sequence of its entries, `seq<(K, V)>`, in PHP iteration order. PHP arrays never repeat a key; `DistinctKeys` records this where a property depends on it.
- A predicate returns a `PVal`: `B(bool)` or `NonBool`. That is all the source inspects, through `is_bool`. Operations that throw `Logic must return boolean.` or `Size must be at least one.` return `Failure(LogicNotBoolean)` or `Failure(SizeBelowOne)`.
- The statics `Routes::$routeData`, `Request::$uri`/`$method`/`$query` and the fallback route are explicit parameters. The HTTP method is called `verb` because `method` is a Dafny keyword.
- Dispatch returns an `Outcome`: `Call(controller, action, args)` or `Redirect(location)`.
- `invoke` is modelled as the code runs it. `Scan` is `Stream::first` over the route list with the candidate closure, and it threads the closure's by-reference `$variableMatch`. `Invoke` is then proved against a declarative specification: the first route, in registration order, that passes the candidate test (`IsWinner`). `ScanIsStreamFirst` proves the selected route is what `Standard.First` returns.
- Strings are `seq<char>` with one character per byte, so `strlen` is `|s|`.

Some behaviour of the PHP code is worth stating plainly:
- Query decoding is positional. It yields one entry per `&`-piece under the keys 0, 1, …, and each entry is the complete `=`-split of that piece (`x=1=2` gives `["x", "1", "2"]`). Repeated names stay as separate entries (`RepeatedNameExample`); nothing is merged into a name-to-value map.
- A URI whose first character is `?` is kept whole. `strpos` finds the `?` at offset 0, and the code's fallback to the full length treats 0 like "not found", so the stored URI can contain `?` (`LeadingQueryUriKept`).
- `first`'s `$logic == null` branch (jester/libraries/standard.php:332) is unreachable, because the parameter is a non-nullable `Callable`. `First` therefore always takes a predicate.

The model also makes some behaviour explicit:
- `match` ignores extra trailing URI segments (`MatchIgnoresExtraSegments`).
- `{}` is a literal segment (`EmptyBracesAreLiteral`).
- `preg_match('/^{.+}$/')` is modelled with PCRE's default `.` and `$`. The inner text may not contain a newline, and one newline may follow the closing `}`.
- A variable-free route whose path is longer than one character and ends in `/` never matches a request for exactly that path. The request's trailing `/` is stripped before the comparison (`VariableFreeRouteAcceptance`).

## Model

| member | source | states |
|---|---|---|
| `Standard.ArrayList.Add` | jester/libraries/standard.php:43-46 | the list grows by one, earlier elements keep their places and the new element is last |
| `Standard.FromList` | jester/libraries/standard.php:146-153 | a Stream built from a PHP list has distinct positional keys 0..n-1 and the list's elements as its values, in order |
| `Standard.Add` | jester/libraries/standard.php:162-169 | a new key is appended at the end; an existing key keeps its position and only its value changes; distinct keys stay distinct |
| `Standard.AddThenGet` | jester/libraries/standard.php:162-169 | after `add(k, v)` the key `k` reads `v` and every other key reads as before |
| `Standard.AllMatch` | jester/libraries/standard.php:178-195 | true on an empty stream; otherwise decided by the first entry that is not true: false for false, a throw for a non-boolean |
| `Standard.AnyMatch` | jester/libraries/standard.php:204-224 | with no predicate, whether the stream is non-empty; otherwise false on an empty stream and decided by the first entry that is not false: true for true, a throw for a non-boolean |
| `Standard.ScansIgnoreEntriesAfterDecision` | jester/libraries/standard.php:178-224 | entries after the deciding one are never examined: appending any entries, even ones whose predicate returns a non-boolean, changes none of `all`, `any`, `none`, `first` |
| `Standard.Chunked` | jester/libraries/standard.php:264-288 | throws exactly when size < 1; otherwise the concatenated chunks are the entries in order, every chunk has at most `size` entries and all but the last exactly `size`, the last is empty only for an empty stream, which gives exactly one empty chunk |
| `Standard.Filter` | jester/libraries/standard.php:297-320 | throws exactly when some predicate result is non-boolean; otherwise keeps exactly the entries whose predicate is true, in original order |
| `Standard.First` | jester/libraries/standard.php:329-349 | the value of the earliest entry whose predicate is true, null when all are false, and a throw only when a non-boolean result comes before the first true one |
| `Standard.FoldAppend` | jester/libraries/standard.php:358-368 | folding a concatenation continues the fold of the first part over the second |
| `Standard.FoldLast` | jester/libraries/standard.php:358-368 | `fold` is a left fold: the last entry is combined last, with the fold of all earlier entries |
| `Standard.Map` | jester/libraries/standard.php:387-394 | keys, order and count are kept and entry i's new value is `logic(k_i, v_i)` |
| `Standard.NoneMatch` | jester/libraries/standard.php:403-420 | true on an empty stream; otherwise decided by the first entry that is not false: false for true, a throw for a non-boolean |
| `Standard.NoneNegatesAny` | jester/libraries/standard.php:403-420 | for every predicate `none` succeeds exactly when `any` does, with the negated answer |
| `Standard.Partition` | jester/libraries/standard.php:443-466 | throws exactly when some predicate result is non-boolean; otherwise the first bucket is what `filter` keeps and the second what `reject` keeps |
| `Standard.PartitionKeepsEveryEntry` | jester/libraries/standard.php:443-466 | the buckets together hold every entry exactly once (as multisets), so their sizes sum to the original count |
| `Standard.PartitionSplitsKeys` | jester/libraries/standard.php:443-466 | with distinct keys, the buckets' key sets are disjoint and together cover all original keys |
| `Standard.ReduceFromNull` | jester/libraries/standard.php:474-484 | `reduce` yields null on an empty stream and otherwise combines the last entry with the reduction of the earlier ones, so it is a fold seeded with null |
| `Standard.Reject` | jester/libraries/standard.php:493-516 | throws exactly when some predicate result is non-boolean; otherwise keeps exactly the entries whose predicate is false, in original order |
| `Text.Split` | jester/libraries/routes.php:29-30 | `explode` gives one piece more than there are separators, no piece contains the separator, and imploding the pieces gives the string back |
| `Text.JoinThenSplit` | jester/libraries/request.php:32-34 | pieces free of the separator come back unchanged from `explode` after `implode` |
| `Text.Find` | jester/libraries/request.php:19 | `strpos` is null exactly when the character is absent, and otherwise the position of its first occurrence |
| `Routes.Add` | jester/libraries/routes.php:9-16 | exactly one record is appended at the end and earlier records are untouched; `hasVariables` holds exactly when the path contains a `{` somewhere and a `}` somewhere |
| `Routes.Register` | jester/libraries/routes.php:9-23 | the table `list` returns after a sequence of `add` calls has one record per call, in registration order, with the declared path, method, controller and action, flagged as having variables exactly when the path contains both `{` and `}` |
| `Routes.RegisterKeepsEarlierRecords` | jester/libraries/routes.php:9-23 | registering further routes never changes earlier records |
| `Routes.MatchSegments` | jester/libraries/routes.php:33-50 | success exactly when the URI has at least as many segments and every literal route segment equals the URI segment at its index; the captures are one per `{…}` segment, in order, each the URI segment at that index |
| `Routes.Match` | jester/libraries/routes.php:25-36 | a URI with fewer `/`-segments than the route never matches; a match captures one value per variable segment |
| `Routes.MatchIgnoresExtraSegments` | jester/libraries/routes.php:33-36 | if `match(r, u)` succeeds then `match(r, u . "/x")` succeeds with the same captures |
| `Routes.EmptyBracesAreLiteral` | jester/libraries/routes.php:39 | `{}` is not a variable segment: `/{}` matches `/{}` capturing nothing and does not match `/x` |
| `Routes.MatchSelf` | jester/libraries/routes.php:33-50 | a route path always matches itself, and captures nothing when it has no variable segment |
| `Routes.VariableSegmentSetsFlag` | jester/libraries/routes.php:15 | a path with a `{…}` segment always gets the `hasVariables` flag |
| `Routes.UsersMatch` | jester/libraries/routes.php:25-51 | `/users/{id}` matches `/users/42` capturing `["42"]` |
| `Request.TruncateUri` | jester/libraries/request.php:18-20 | the stored URI is a prefix of the raw one: cut before the first `?` at position p > 0, unchanged when there is no `?` or it is at position 0 |
| `Request.DecodeQuery` | jester/libraries/request.php:26-37 | empty query gives an empty list; otherwise (number of `&`) + 1 entries under keys 0..n-1, entry i being the full `=`-split of the i-th `&`-piece |
| `Request.DecodeThenEncode` | jester/libraries/request.php:26-37 | decoding loses nothing: re-joining the decoded pieces gives back every query string, the empty one included |
| `Request.EncodeThenDecode` | jester/libraries/request.php:32-36 | a positional list of `&`- and `=`-free names and values is recovered by decoding its encoding |
| `Request.Init` | jester/libraries/request.php:15-41 | the method is kept; the URI is cut just before its first `?`, kept whole when there is no `?` or it comes first; the decoded query is empty exactly when the query string is, and otherwise holds (number of `&`) + 1 entries, entry i being the full `=`-split of the i-th `&`-piece under key i |
| `Request.NormaliseUri` | jester/libraries/request.php:53-56 | exactly one trailing `/` is removed, and only when the candidate's path is longer than one character and the URI ends in `/` |
| `Request.Scan` | jester/libraries/request.php:47-67 | selects nothing exactly when no route passes the candidate test, otherwise the first route that does; `$variableMatch` ends up as the winner's captures, or null for a variable-free winner |
| `Request.Invoke` | jester/libraries/request.php:43-79 | redirects to the fallback exactly when no route passes; otherwise calls the first passing route's handler with its captures, and with no arguments when it has no variables |
| `Request.ScanIsStreamFirst` | jester/libraries/request.php:47-67 | route selection is `Stream::first` over the route list with the candidate closure, which never throws |
| `Request.LaterRoutesNeverConsulted` | jester/libraries/request.php:47-67 | once some route passes, routes registered after it do not change the outcome |
| `Request.UnknownMethodRedirects` | jester/libraries/request.php:50 | a request whose method has no registered route is redirected to the fallback |
| `Request.CalledRouteHasRequestMethod` | jester/libraries/request.php:50 | the handler called always belongs to a route registered for the request's method |
| `Request.EarlierDuplicateShadowsLater` | jester/libraries/request.php:47-67 | of two registrations with the same method, path and flag, the later is never selected |
| `Request.VariableFreeRouteAcceptance` | jester/libraries/request.php:53-62 | a variable-free route passes exactly when the raw URI is its path, or its path plus one `/` when the trailing-slash rule applies |
| `Request.VariableRouteExample` | jester/libraries/request.php:43-79 | GET `/users/42` against `/users/{id}` calls the handler with `["42"]` |
| `Request.TrailingSlashExample` | jester/libraries/request.php:53-56 | GET `/users/42/` against `/users/{id}` also calls the handler with `["42"]` |
| `Request.RootRouteExample` | jester/libraries/request.php:54 | GET `/` against `/` calls the handler with no arguments |
| `Request.RepeatedNameExample` | jester/libraries/request.php:32-36 | `a=1&a=2` decodes to two entries, `[0: [a, 1], 1: [a, 2]]` |
| `Request.MultipleEqualsExample` | jester/libraries/request.php:34 | `x=1=2` decodes to one entry with all three `=`-pieces |
| `Request.TruncateUriExample` | jester/libraries/request.php:19 | `/index?name=Jamie` is stored as `/index` |
| `Request.LeadingQueryUriKept` | jester/libraries/request.php:19 | `?name=Jamie` is stored whole, because its `?` is at position 0 |

## Left out

- `Stream::toArray` and `Stream::toMap` return the data unchanged. A Stream here is that data, so they need no member. (`ArrayList::size` and `ArrayList::toArray` are modelled, as `Standard.ArrayList.Size` and `Standard.ArrayList.ToArray`; `Standard.ArrayList.Add`'s contract is stated through them.)
- `Stream::asIterable` is left out. Its closures capture `$pos` by value, so the iterator never advances.
- `Stream::forEach`, `Stream::onEach` and `ArrayList::__toString` are left out. They run callbacks or format output only for effect.
- `isJSON`, the JSON branch of the `Stream()` factory and `Stream::toJSON` are left out. They wrap `json_decode` and `json_encode`.
- PHP key coercion is not modelled: `add` turns numeric-string keys into integer keys. Keys are generic values compared by equality.
- The loose `==` in the simple path comparison is not modelled. Some numeric strings compare equal under it; the model uses plain string equality.
- The debug `echo` in `init` is I/O and is left out.
- `Response::redirect` (header and `die`) and the dynamic `call_user_func` are not run. They are represented by the `Redirect` and `Call` outcomes.
- The database layer, views, the ORM base `Model`, session start, file auto-loading and Twig set-up are I/O or bootstrap and are not part of this model.
- The fallback getter and setter are replaced by a `fallback` parameter. An unset (`null`) fallback is not distinguished from a location string.
- `Standard.First`: returns `Option<V>`, so it cannot represent PHP's conflation of a stored `null` value with "not found". The route table never stores `null`.
- `Standard.Filter`: the stream's data is left unchanged on a throw because the result is only assigned after the loop. In this value model a failing call produces no new stream, so the caller's value is untouched by construction and there is no separate member for it.
- `Standard.Chunked`: a chunk is filled by appending, because a stream's keys are distinct and `$chunk[$k] = $v` therefore always adds a new entry.
