# android-toolbox: `Stream<T>` and the message core of `Log`

This project models the two parts of android-toolbox with real behaviour and proves what they promise.

- `Stream<T>` is a fluent wrapper around one backing collection, modelled as a list. The model is the class
  `Streams.Stream<T>`, with the field `data: seq<T>`. The stages that build a new collection
  (`map`, `flatMap`, `filter`, `sort`, `copy`, `intersect`, `except`) return a fresh stream and,
  having no `modifies` clause, leave the receiver untouched. `apply` hands back the receiver.
  `merge` appends to the receiver's own `data`. The materialisations (`asList`, `asSet`, `asMap`,
  `size`, `first`, `join`) and `reduce` read `data`. Each method with a loop in the source is a
  method with a loop here. It is proved against a reference definition in `Seqs` or `Strings`,
  and lemmas state what that definition means: order kept, subsequence, left fold, partition,
  last write wins, delimiter interleaving, stable permutation.
- `Log`'s message core is the class `Logging.Log`. It holds the static configuration `isDebug` and
  `tagPrefix`. `Println` returns the list of `(priority, tag, message)` calls it would make on the
  platform logger. `Logging.SplitLongString` is the fixed-size chunking helper.

Files: `wrappers.dfy` (Option, standing for Java's `null`), `seqs.dfy` (reference definitions and
lemmas over sequences), `strings.dfy` (join, split, Java's `split("\n")`), `stream.dfy` (the
stream class), `log.dfy` (the logger).

Caller-supplied objects become Dafny function values:
- `Func` is `T -> R`.
- `Predicate` is `T -> bool`.
- `ReducerFunc` is `(R, T) -> R`.
- `Comparator` is `(T, T) -> int`. On the stream's elements it must keep Java's `Comparator`
  contract: `cmp(a, b)` and `cmp(b, a)` have opposite signs, and `cmp(a, b) <= 0` is total and
  transitive.
- `toString` is `T -> string`.
- `VoidFunc` is `T -> E`: the value it returns stands for its side effect, and `Apply` returns
  those values in call order.

The model follows the code, including where it behaves surprisingly:
- In `println`, a message of 4000 characters or more is cut at line breaks, not by length
  (toolbox/src/main/java/com/ioenv/android/toolbox/Log.java:156). The comment at Log.java:153-155
  says a single line longer than 4000 characters is deliberately ignored. So such a line still goes
  out in one call, and a long message made only of line breaks goes out in none. The model keeps
  both cases.
- A message of exactly 4000 characters takes the splitting path, because the test is `<`.
- `splitLongString` is private and nothing in `Log` calls it. It is modelled by itself.

## Model

| member | source | states |
|---|---|---|
| Streams.Stream.constructor | toolbox/src/main/java/com/ioenv/android/toolbox/Stream.java:29-31 | a `null` collection gives an empty stream; otherwise the stream holds the given elements |
| Streams.Stream.OfCollection | toolbox/src/main/java/com/ioenv/android/toolbox/Stream.java:21-23 | a fresh stream over the collection, empty for `null` |
| Streams.Stream.OfElements | toolbox/src/main/java/com/ioenv/android/toolbox/Stream.java:25-27 | a fresh stream holding the arguments in order |
| Streams.Stream.AsList | toolbox/src/main/java/com/ioenv/android/toolbox/Stream.java:49-51 | a list of the same length with the same element at every position |
| Streams.Stream.AsSet | toolbox/src/main/java/com/ioenv/android/toolbox/Stream.java:61-63 | exactly the elements of the stream, never more of them than its size |
| Seqs.SetOfSeqSize | toolbox/src/main/java/com/ioenv/android/toolbox/Stream.java:61-63 | a sequence has no more distinct elements than positions |
| Streams.Stream.AsMap | toolbox/src/main/java/com/ioenv/android/toolbox/Stream.java:65-71 | the key set is the set of `key(x)` over the elements, and each key holds the last element with that key |
| Seqs.AssocKeys | toolbox/src/main/java/com/ioenv/android/toolbox/Stream.java:65-71 | the map built by repeated `put` has exactly the elements' keys |
| Seqs.Assoc | toolbox/src/main/java/com/ioenv/android/toolbox/Stream.java:65-71 | the map the `put` loop builds: every stored value is one of the elements, stored under its own key |
| Seqs.AssocLastWins | toolbox/src/main/java/com/ioenv/android/toolbox/Stream.java:66-69 | last write wins: an element with no later element of the same key is the one stored under its key |
| Seqs.AssocValue | toolbox/src/main/java/com/ioenv/android/toolbox/Stream.java:66-69 | every stored value is the last element that has its key |
| Streams.Stream.Size | toolbox/src/main/java/com/ioenv/android/toolbox/Stream.java:73-75 | the number of elements, zero exactly when `first()` finds nothing |
| Streams.Stream.Apply | toolbox/src/main/java/com/ioenv/android/toolbox/Stream.java:77-82 | the consumer runs once per element in iteration order; the receiver is returned with its contents unchanged |
| Streams.Stream.Map | toolbox/src/main/java/com/ioenv/android/toolbox/Stream.java:84-90 | a fresh stream of the same length whose i-th element is `mapper(data[i])`; the receiver is unchanged |
| Seqs.MapSeq | toolbox/src/main/java/com/ioenv/android/toolbox/Stream.java:84-90 | the mapped sequence has the input's length and holds `f(s[i])` at each position `i` |
| Streams.Stream.FlatMap | toolbox/src/main/java/com/ioenv/android/toolbox/Stream.java:92-98 | a fresh stream holding the sub-streams' contents concatenated in element order |
| Seqs.Flatten | toolbox/src/main/java/com/ioenv/android/toolbox/Stream.java:92-98 | the concatenation of the parts: every element of every part occurs in it, and each of its elements comes from some part |
| Seqs.FlattenLength | toolbox/src/main/java/com/ioenv/android/toolbox/Stream.java:92-98 | the flat-mapped size is the sum of the sub-stream sizes |
| Seqs.FlattenAppend | toolbox/src/main/java/com/ioenv/android/toolbox/Stream.java:94-96 | concatenating the parts of a concatenation is concatenating the two results |
| Streams.Stream.Filter | toolbox/src/main/java/com/ioenv/android/toolbox/Stream.java:100-108 | a fresh stream holding the filter of `data` by the predicate |
| Seqs.Filter | toolbox/src/main/java/com/ioenv/android/toolbox/Stream.java:100-108 | the filtered sequence is never longer than the input |
| Seqs.FilterIsSubsequence | toolbox/src/main/java/com/ioenv/android/toolbox/Stream.java:100-108 | the filter result is a subsequence of the input, so the relative order is kept |
| Seqs.FilterCount | toolbox/src/main/java/com/ioenv/android/toolbox/Stream.java:102-106 | each element that satisfies the predicate is kept as often as it occurs; every other element is dropped |
| Seqs.FilterMembership | toolbox/src/main/java/com/ioenv/android/toolbox/Stream.java:102-106 | an element is in the result exactly when it is in the input and satisfies the predicate |
| Seqs.FilterAppend | toolbox/src/main/java/com/ioenv/android/toolbox/Stream.java:102-106 | filtering a concatenation is concatenating the filtered parts |
| Seqs.FilterCons | toolbox/src/main/java/com/ioenv/android/toolbox/Stream.java:102-106 | the first element is kept in front of the filtered rest exactly when it satisfies the predicate |
| Streams.Stream.ReduceFromNull | toolbox/src/main/java/com/ioenv/android/toolbox/Stream.java:110-112 | the left fold from an absent (`null`) accumulator, which is the result for an empty stream |
| Streams.Stream.Reduce | toolbox/src/main/java/com/ioenv/android/toolbox/Stream.java:114-121 | the left fold of the reducer over the elements from the initializer; the initializer itself for an empty stream |
| Seqs.FoldLeft | toolbox/src/main/java/com/ioenv/android/toolbox/Stream.java:114-121 | the left fold: the initial value for no elements, and `f(init, x)` for a single element `x` |
| Seqs.FoldLeftCons | toolbox/src/main/java/com/ioenv/android/toolbox/Stream.java:115-120 | the fold combines the initializer with the first element first |
| Seqs.FoldLeftAppend | toolbox/src/main/java/com/ioenv/android/toolbox/Stream.java:115-120 | folding a concatenation folds the second part from the first part's result, so reducing a merged stream continues from the receiver's own reduction |
| Streams.Stream.Sort | toolbox/src/main/java/com/ioenv/android/toolbox/Stream.java:127-131 | for a comparator that keeps Java's `Comparator` contract on the elements, a fresh stream that is ordered by the comparator, is a permutation of `data` and is stable; `data` is untouched |
| Seqs.InsertionSort | toolbox/src/main/java/com/ioenv/android/toolbox/Stream.java:129 | the stable sort standing for `Collections.sort`: as long as its input and holding every input element (sorted, permutation and stability are the lemmas below) |
| Seqs.Insert | toolbox/src/main/java/com/ioenv/android/toolbox/Stream.java:129 | one insertion step: one element longer, holding the inserted element and every element it was inserted into |
| Seqs.SortPermutation | toolbox/src/main/java/com/ioenv/android/toolbox/Stream.java:128-129 | the sorted list has the same multiset of elements as the input |
| Seqs.SortSorted | toolbox/src/main/java/com/ioenv/android/toolbox/Stream.java:128-129 | with a comparator whose `<= 0` order is a total preorder (part of Java's contract), every earlier element compares no greater than every later one |
| Seqs.SortStable | toolbox/src/main/java/com/ioenv/android/toolbox/Stream.java:128-129 | the elements that compare equal to any given element keep their relative order |
| Seqs.InsertMultiset | toolbox/src/main/java/com/ioenv/android/toolbox/Stream.java:129 | inserting adds exactly the inserted element |
| Seqs.InsertSorted | toolbox/src/main/java/com/ioenv/android/toolbox/Stream.java:129 | inserting into a sorted list keeps it sorted |
| Seqs.InsertKeepsEquivalents | toolbox/src/main/java/com/ioenv/android/toolbox/Stream.java:129 | inserting puts the new element first among its equals and leaves their order alone |
| Seqs.SortStableFrom | toolbox/src/main/java/com/ioenv/android/toolbox/Stream.java:129 | stability for any input whose elements lie in a domain where the comparator's `<= 0` order is a total preorder |
| Seqs.EquivalentsCompareEqual | toolbox/src/main/java/com/ioenv/android/toolbox/Stream.java:129 | two elements equal to a common third compare as no greater than each other |
| Streams.Stream.Copy | toolbox/src/main/java/com/ioenv/android/toolbox/Stream.java:133-135 | a fresh stream with the same elements in the same order |
| Streams.Stream.First | toolbox/src/main/java/com/ioenv/android/toolbox/Stream.java:141-148 | the first element, or absent (`null`) exactly when the stream is empty |
| Streams.Stream.FirstOr | toolbox/src/main/java/com/ioenv/android/toolbox/Stream.java:145-148 | the first element, or the default value when the stream is empty |
| Streams.Stream.Merge | toolbox/src/main/java/com/ioenv/android/toolbox/Stream.java:150-153 | the receiver's `data` becomes its old elements followed by the other stream's (doubled when merged with itself); only the receiver changes; the receiver is returned |
| Streams.Stream.Intersect | toolbox/src/main/java/com/ioenv/android/toolbox/Stream.java:155-158 | a fresh stream holding the elements that occur in the other stream, in this stream's order |
| Streams.Stream.Except | toolbox/src/main/java/com/ioenv/android/toolbox/Stream.java:160-163 | a fresh stream holding the elements that do not occur in the other stream, in this stream's order |
| Streams.IntersectExceptPartition | toolbox/src/main/java/com/ioenv/android/toolbox/Stream.java:155-163 | intersect and except split the elements in two: together they hold every element as often as the stream does, and each element goes to the side given by its membership in the other stream |
| Seqs.FilterPartition | toolbox/src/main/java/com/ioenv/android/toolbox/Stream.java:155-163 | two complementary filters together hold the input's multiset, and their lengths add up to its length |
| Streams.Stream.Join | toolbox/src/main/java/com/ioenv/android/toolbox/Stream.java:165-172 | the elements' strings with the delimiter between them: `""` when empty, the one string when single |
| Strings.Interleave | toolbox/src/main/java/com/ioenv/android/toolbox/Stream.java:165-172 | the pieces joined by the delimiter: empty for no pieces, and starting with the first piece otherwise |
| Strings.PrefixedIsDelimiterThenInterleave | toolbox/src/main/java/com/ioenv/android/toolbox/Stream.java:166-171 | writing the delimiter before every piece gives one delimiter followed by the joined string, so stripping `|delimiter|` characters leaves the join |
| Strings.SplitInterleave | toolbox/src/main/java/com/ioenv/android/toolbox/Stream.java:165-172 | splitting a join on a one-character delimiter that no piece contains gives back the pieces |
| Strings.InterleaveSplit | toolbox/src/main/java/com/ioenv/android/toolbox/Log.java:156 | joining the pieces of a split with the separator gives back the string |
| Strings.Lines | toolbox/src/main/java/com/ioenv/android/toolbox/Log.java:156 | Java's `message.split("\n")`: no line holds a line break, and when the message had one the last line is not empty (trailing empty pieces are removed) |
| Strings.SplitPiecesAreFree | toolbox/src/main/java/com/ioenv/android/toolbox/Log.java:156 | no piece of a split contains the separator |
| Strings.SplitWithoutSeparator | toolbox/src/main/java/com/ioenv/android/toolbox/Log.java:156 | a string without the separator splits into itself alone |
| Strings.SplitAfterSeparator | toolbox/src/main/java/com/ioenv/android/toolbox/Log.java:156 | a separator followed by separator-free text adds exactly that text as one more piece |
| Strings.StripTrailingEmptyShape | toolbox/src/main/java/com/ioenv/android/toolbox/Log.java:156 | removing trailing empty pieces leaves a prefix whose last piece, if any, is not empty |
| Strings.StripTrailingEmptyLosesDelimiters | toolbox/src/main/java/com/ioenv/android/toolbox/Log.java:156 | removing trailing empty pieces removes only delimiters from the end of the join |
| Strings.LinesRecover | toolbox/src/main/java/com/ioenv/android/toolbox/Log.java:156-159 | the lines emitted for a long message contain no line break, and joined with line breaks they give the message back, up to the line breaks it ended with |
| Logging.Log.constructor | toolbox/src/main/java/com/ioenv/android/toolbox/Log.java:20-27 | logging starts enabled with an empty tag prefix |
| Logging.Log.SetIsDebug | toolbox/src/main/java/com/ioenv/android/toolbox/Log.java:23-25 | sets the switch and leaves the prefix alone |
| Logging.Log.SetTagPrefix | toolbox/src/main/java/com/ioenv/android/toolbox/Log.java:195-197 | sets the prefix and leaves the switch alone |
| Logging.Log.Println | toolbox/src/main/java/com/ioenv/android/toolbox/Log.java:140-161 | nothing when logging is off or the message is null or empty; otherwise, with the stack trace appended after a line break, one call if shorter than 4000 characters and else one call per line, every call with tag `tagPrefix + tag` |
| Logging.WithStackTrace | toolbox/src/main/java/com/ioenv/android/toolbox/Log.java:147-149 | the message with the stack trace appended: the message is a prefix, followed by a line break and the trace when there is one, and unchanged when there is none |
| Logging.SplitLongString | toolbox/src/main/java/com/ioenv/android/toolbox/Log.java:163-176 | no chunks for `null` or `""`; the chunks concatenate to the string; there are ceil(length / 4000) of them; each is non-empty and at most 4000 long; all but the last are exactly 4000 long |

## Left out

- `synchronize()`: its only purpose is mutual exclusion between threads, and there is no concurrency in this model.
- `asArray()`: it is an unchecked array cast. `asList` covers the same contents.
- `asCollection()`: it hands out the live backing collection by reference. Heap aliasing of Java collections is not modelled. The constructor likewise copies the caller's collection into `data` and does not alias it.
- `sort()` with natural ordering (a `null` comparator) is not modelled. The comparator is always an explicit parameter.
- Streams.Stream.Sort: the comparator must keep Java's `Comparator` contract on the stream's elements (`Seqs.ComparatorContractOn`). Java demands the same of callers, and for a comparator that breaks it `Collections.sort` may throw or give an order that depends on its algorithm; that case is not modelled. The sort is modelled as a stable insertion sort. For a comparator that keeps the contract, a stable sort has only one possible result, so the model gives the same list as the library's sort. That uniqueness is not itself proved here.
- Streams.Stream.FlatMap: the mapper returns the sub-stream's contents (`seq<R>`), not a `Stream` object. Only `asCollection()` of the sub-stream is read.
- Streams.Stream.Merge: merging a non-empty stream into one built by `of(T...)` or from a `null` collection throws `UnsupportedOperationException` in Java, because the backing list is fixed-size or immutable and `addAll` calls `add` once per element of the argument. Merging an empty stream into such a stream returns normally and changes nothing, as in the model. Here `data` can always grow.
- Streams.Stream.Merge: the backing collection is taken to be a list, so merging always appends. In Java, `data` is whatever `Collection` the caller passed to `of(Collection)` or the constructor (toolbox/src/main/java/com/ioenv/android/toolbox/Stream.java:21-31), and `merge` is `data.addAll(another.data)` (Stream.java:151). On a stream over a `Set`, `merge` adds only the elements not already present, and the result has the set's own order rather than append order. The same holds for every other operation on such a stream: the iteration order of a `Set` is taken to be the order of `data`, and duplicates are never collapsed.
- Logging.Log.SetTagPrefix, Logging.Log.Println and Streams.Stream.Join: the tag prefix, the tag and the delimiter are taken to be non-null (`string`). In Java, `setTagPrefix(null)` or a `null` tag puts the text `"null"` into every later tag, because `tagPrefix + tag` (Log.java:151, 158) writes a null reference as `"null"`. `join(null)` returns `""` on an empty stream. On a non-empty one it first appends the text `"null"`, and then throws `NullPointerException` at `delimiter.length()` (Stream.java:171).
- Exceptions thrown by callbacks, and a `null` receiver for `toString`, are not modelled.
- `HashSet` and `HashMap` hashing are not modelled. Dafny sets and maps use value equality, as `equals` does.
- `toString` is an arbitrary function `T -> string`.
- Streams.Stream.First: elements are taken to be non-null. In Java, `first()` also returns `null` when the first element is `null`, which the caller cannot tell apart from an empty stream. The `Option` result here separates the two cases.
- Logging.Log.Println: the platform call is returned as an `Emission` and is not performed. The stack-trace text of the throwable is an optional string parameter. Priorities are plain integers.
- Java strings are sequences of UTF-16 code units. Here they are `seq<char>`, and lengths are counted in characters.
- `i`, `v`, `d`, `w` and `e` are left out. When logging is on, they pass a priority, the tag and a message to `println` (toolbox/src/main/java/com/ioenv/android/toolbox/Log.java:38-78). The variadic forms first build the message with `formatString`, which uses the wall clock, the thread id, stack inspection and `String.format`. `w(tag, th)` passes the empty message with the throwable, so `println` drops it and it never logs (Log.java:62-66 with 144). `e(tag, msg, th)` passes its message and throwable unformatted (Log.java:74-78).
- The `wtf` family (Log.java:80-106) is left out. It never calls `println`: it calls the platform's `wtf` directly with `tagPrefix + tag`, and only on Android SDK levels that have it.
- `formatString`, `getCallerInfo`, `defaultTag`, `dumpCallStack`, `printStackTrace` and `getStackTraceString` are left out. They do stack-trace inspection, timing or platform calls.
- `tag` and `tagSimple` are left out, because they read class names by reflection.
