# khandy bounded download and helpers, modelled in Dafny

This project models the core of the khandy utility toolkit:

- the bounded streaming download of `khandy/misc.py` (`download_image` and
  `download_file`). It runs header pre-checks on Content-Type and Content-Length
  (section 8.6 of RFC 9110). Then it streams the body chunk by chunk with a running
  total, stops at the first chunk that takes the total above `max_filesize`, and
  checks `min_filesize` at the end. It returns the joined bytes or a classified
  `DownloadError`. The two functions are one method, `BoundedDownload.Download`,
  with a `requireImage` flag.
- the error table `DownloadStatusCode` and the exception `DownloadError`: its
  fields, how its message is composed, and its textual form
  `[DownloadError <code>] <message>`.
- the small helpers of `khandy/misc.py`: `to_ntuple`, `all_of` / `any_of` /
  `none_of`, and the counting loop of `get_file_line_count`.
- `top_k` and `sum_by_indices_list` of `khandy/numpy_utils.py`, on one-dimensional
  integer arrays.

Files:

- `wrappers.dfy` (module `Wrappers`): `Option` and `Result`.
- `download_errors.dfy` (module `DownloadErrors`): the status table and the
  exception, with a parser for the textual form as its inverse.
- `download.dfy` (module `BoundedDownload`): the HTTP reply as data, the
  specification `ExpectedFetch`, the imperative `Download` method (header checks)
  and `ReadBody` method (chunk loop) proved against it, and lemmas for each property of the download.
- `misc.dfy` (module `Misc`): `ToNTuple`, `AllOf` / `AnyOf` / `NoneOf`, and
  `GetFileLineCount`.
- `numpy_utils.dfy` (module `NumpyUtils`): `TopKOf` over an insertion sort of
  positions, and the imperative `SumByIndicesList`.

The HTTP exchange is a `Reply`. It is either `TransportFailure`, when the client
call or its status check raises, or a `Response` carrying three things: an
optional Content-Type, an optional Content-Length already read as an integer, and
the sequence of chunks the body iterator yields. A call returns three values: the
outcome, the number of chunks it pulled from the iterator, and the warnings it
would have emitted. Pulled-chunk counts make "no chunk is read" and "no later
chunk is consumed" provable.

Three points about the code's behaviour:

- The size envelope is not required to satisfy `min <= max`; the code does not
  check it. When `min > max`, every call that reaches a size check fails, and a
  declared length is compared with the maximum first.
- Only the image download reads Content-Type. `download_file` never looks at it,
  so it never warns about a missing one.
- A transport failure is the HTTP client's own exception, not a `DownloadError`.

## Model

| member | source | states |
|---|---|---|
| `DownloadErrors.StatusCode.Code` | khandy/misc.py:217-225 | each member's code is the first element of its value, lies in -103..-100, and looking it up by code gives the member back (codes are distinct) |
| `DownloadErrors.NewError` | khandy/misc.py:232-240 | name and code come from the status member; the message starts with the member's message, equals it exactly when no extra string is given, and otherwise continues with ": " and the extra string |
| `DownloadErrors.Repr` | khandy/misc.py:242-245 | the text begins with "[DownloadError " and the code and message can be read back out of it |
| `DownloadErrors.ReprParses` | khandy/misc.py:242-245 | parsing "[DownloadError <code>] <message>" gives back the code and the message, whatever the message holds |
| `DownloadErrors.ReprInjective` | khandy/misc.py:242-245 | two errors print alike exactly when their codes and messages agree |
| `DownloadErrors.ParseIntRoundTrip` | khandy/misc.py:243 | the decimal text of the code, negative sign included, reads back as the same integer |
| `BoundedDownload.Download` | khandy/misc.py:248-326 | the header checks followed by the chunk loop (running total, accumulated chunks, early exit above the maximum) give exactly the outcome, chunk count and warnings of the specification `ExpectedFetch` |
| `BoundedDownload.ReadBody` | khandy/misc.py:278-289 | the chunk loop pulls chunks in order, keeps the running total within the maximum while it goes on, and ends with exactly the observed-size verdict `StreamVerdict`: too large at the first overflowing chunk, too small after a short body, otherwise the joined chunks |
| `BoundedDownload.Concat` | khandy/misc.py:287 | the joined chunks are as long as the chunks' total size |
| `BoundedDownload.Consumed` | khandy/misc.py:280-284 | the loop pulls all chunks when the total stays within the maximum; otherwise it pulls up to the first chunk at which the running total exceeds the maximum, and every shorter prefix was within it |
| `BoundedDownload.FirstOverflowIsConsumed` | khandy/misc.py:280-284 | a prefix that first exceeds the maximum at its last chunk is exactly what the loop consumes, and the whole body then exceeds the maximum |
| `BoundedDownload.TransportFailureReadsNothing` | khandy/misc.py:257-258 | a transport or HTTP-status failure reads no chunk and emits no warning |
| `BoundedDownload.NonImageTypeRejected` | khandy/misc.py:260-265 | an image download whose Content-Type starts with neither "image/" nor "application/octet-stream" fails with URL_IS_NOT_IMAGE and reads no chunk |
| `BoundedDownload.ImageTypeCheckOnlyRejects` | khandy/misc.py:260-265 | with an accepted or missing Content-Type, an image download ends exactly as a file download does; a missing one adds only a warning |
| `BoundedDownload.FileDownloadIgnoresContentType` | khandy/misc.py:301-305 | a file download's result does not depend on Content-Type |
| `BoundedDownload.DeclaredTooLargeReadsNothing` | khandy/misc.py:268-274 | a declared length above the maximum fails with FILE_SIZE_TOO_LARGE, whatever the minimum, and reads no chunk |
| `BoundedDownload.DeclaredTooSmallReadsNothing` | khandy/misc.py:268-276 | a declared length not above the maximum but below the minimum fails with FILE_SIZE_TOO_SMALL and reads no chunk |
| `BoundedDownload.MissingLengthOnlyWarns` | khandy/misc.py:305-307 | a missing Content-Length adds a warning and the result is the verdict of the observed size alone |
| `BoundedDownload.DeclaredLengthIsAdvisory` | khandy/misc.py:268-289 | once the declared length passes the pre-check, the outcome and the chunks read are the same as with no Content-Length at all |
| `BoundedDownload.TruthfulLengthSameVerdict` | khandy/misc.py:309-326 | a Content-Length equal to the body's real size gives the same outcome as none; only the number of chunks read and the missing-length warning can differ |
| `BoundedDownload.StreamStopsAtFirstOverflow` | khandy/misc.py:278-284 | an admitted body larger than the maximum fails with FILE_SIZE_TOO_LARGE after the first chunk that takes the total over; every earlier prefix was within the maximum; the accumulated bytes exceed it by at most that last chunk, so by at most the 10 KiB chunk size when the client keeps to it |
| `BoundedDownload.ShortBodyTooSmall` | khandy/misc.py:285-286 | an admitted body within the maximum but below the minimum (an empty body when the minimum is positive) fails with FILE_SIZE_TOO_SMALL after all chunks are read |
| `BoundedDownload.SuccessIsConcatenation` | khandy/misc.py:278-289 | a call succeeds exactly when the headers admit the body and its observed size lies in [min, max]; the bytes are then the chunks joined in arrival order, all chunks read |
| `BoundedDownload.FileSizeIsZeroNeverRaised` | khandy/misc.py:292-326 | every DownloadError raised is built from a status other than FILE_SIZE_IS_ZERO, with no extra string |
| `BoundedDownload.DefaultBoundsAcceptEmptyBody` | khandy/misc.py:292-326 | with the default bounds (0 and 100 MiB) and no Content-Length, an empty body is accepted as the empty byte string, with one warning |
| `BoundedDownload.ConsumptionBounds` | khandy/misc.py:268-284 | no chunk is read unless the headers admit the body, and never more chunks than the body has |
| `Misc.ToNTuple` | khandy/misc.py:13-32 | ValueError exactly when n is not a positive integer (bool counts as integral); AssertionError exactly when x is a non-str sequence of another length; otherwise n elements: the sequence's own, or n copies of x (strings included) |
| `Misc.ToNTupleIdempotent` | khandy/misc.py:29-32 | passing a result back in with the same n returns it unchanged |
| `Misc.AllOf` | khandy/misc.py:94-107 | true exactly when every element satisfies the predicate (so true on an empty sequence) |
| `Misc.AnyOf` | khandy/misc.py:110-123 | true exactly when some element satisfies the predicate |
| `Misc.NoneOf` | khandy/misc.py:126-139 | true exactly when no element satisfies the predicate |
| `Misc.PredicateDuality` | khandy/misc.py:94-139 | none_of is all_of of the negated predicate, any_of is its negation, and on an empty sequence all_of holds while any_of does not |
| `Misc.OccurrencesAppend` | khandy/misc.py:161 | newline counts of consecutive reads add up to the count of their concatenation |
| `Misc.GetFileLineCount` | khandy/misc.py:153-162 | reading the text in 8 MiB slices until an empty read and summing each slice's newlines gives the number of newlines in the whole text |
| `NumpyUtils.SortPositions` | khandy/numpy_utils.py:165-166 | the positions come out as a permutation of the input, ordered by value (descending for largest, ascending otherwise), and stay distinct |
| `NumpyUtils.TopKOf` | khandy/numpy_utils.py:129-174 | fails exactly when k is outside 1..len(x); otherwise k values and k distinct in-range indices with values[i] == x[indices[i]] |
| `NumpyUtils.TopKSelectsExtremes` | khandy/numpy_utils.py:158-164 | every returned value is >= (largest) or <= (smallest) every element whose position is not returned |
| `NumpyUtils.TopKSortedOrder` | khandy/numpy_utils.py:165-173 | with sorted, the values descend for largest and ascend otherwise, indices moving with their values |
| `NumpyUtils.SumByIndicesList` | khandy/numpy_utils.py:177-197 | one output slot per index list, each the sum of the selected elements (negative indices count from the end, repeats count each time); an out-of-bounds index makes the first offending list raise instead |
| `NumpyUtils.SumAtAppend` | khandy/numpy_utils.py:196 | the sum over two index lists joined is the sum of their sums, so a repeated index counts each time |
| `NumpyUtils.SumAtPermutation` | khandy/numpy_utils.py:196 | the sum depends only on how often each index appears, not on the order of the list |

## Left out

- The HTTP client (`requests.get` with `params`, `stream` and the other keyword arguments, and `raise_for_status`) is not modelled. Its failures before the body is read are the single opaque `TransportFailure` reply.
- An exception raised by the chunk iterator part-way through the body (connection reset, read time-out, decoding error) is not modelled: the body is a finite sequence that always runs to its end.
- Negative bounds are not modelled: both bounds are natural numbers. The code checks neither their sign nor `min <= max`, and with a negative maximum, a zero minimum, no Content-Length and an empty body it returns the empty byte string although its length exceeds the maximum.
- `warnings.warn` is not called. The warnings are returned as a sequence instead.
- The `with` block that releases the response on every exit path is not modelled; there is no resource in the model.
- Parsing the Content-Length text with `int(...)` is not modelled. The header arrives as an optional integer, and a malformed one is not represented.
- The chunk size 10 KiB is what the client is asked for, and the model does not enforce it on chunks. The overflow bound is stated per last chunk, and in terms of the chunk size only for clients that keep to it.
- `get_host_ip`, `set_logger`, `print_with_no`, `print_arguments` and `save_arguments` are left out: they do socket, logging, console and file I/O.
- `is_seq_of`, `is_list_of` and `is_tuple_of` are left out: they are runtime type checks against abstract base classes.
- `to_1tuple` to `to_4tuple` have no members of their own. Each is `Misc.ToNTuple` with `n` fixed to 1, 2, 3 or 4.
- Misc.ToNTuple: of Python's sequence types only lists and tuples are represented. bytes, range and other Sequence implementations are not; every other object is the opaque `PyOther`.
- Misc.AllOf: generic iterables (generators consumed once) and predicates that raise or have side effects are not modelled, and neither are they for `AnyOf` and `NoneOf`. Pure predicates over finite sequences make the short-circuit order unobservable.
- Misc.GetFileLineCount: opening the file, decoding it and universal-newline translation are not modelled. The input is the text as the file object returns it.
- The floating-point helpers of `khandy/numpy_utils.py` (`sigmoid`, `softmax`, `log_sum_exp`, the normalisations, `get_order_of_magnitude`) are left out: floating point.
- NumpyUtils.TopKOf: only one-dimensional input is modelled (no `axis`, no `axis=None` flattening). Which index is returned among equal values, and the order of the unsorted result, are numpy internals. The model returns one valid choice and promises only the set and order properties.
- NumpyUtils.SumByIndicesList: int64 wrap-around of numpy sums, other dtypes, other axes and the `indices_list=None` default are not modelled. Sums are unbounded integers.
- `khandy/image/misc.py` is not part of this model: it wraps image decoding, encoding and colour conversion.
