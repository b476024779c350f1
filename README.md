# Happy Camper: helpers of a camping-gear rental site

Happy Camper is a Flask web site where people list camping gear for rent
and search for gear offered near them. This project models the site's
helper code in Dafny and proves properties of it:

- `search_helpers.py`. The search page composes four helpers:
  - `search_radius` finds the postal codes within a radius. It looks
    first in a small in-process distance table, then asks an external
    distance service about the rest.
  - `get_products_within_dates` collects the products that active users
    offer for the whole requested period.
  - `filter_products` keeps the products of a category and/or brand.
  - `categorize_products` buckets the products by category name.
- `make_update_helpers.py`:
  - `calc_avg_star_rating` computes the average star rating.
  - `reverse_merge_sort_histories` is an in-place merge sort of rental
    histories, newest first.
  - `format_phone_number` lays a phone number out as "(xxx) xxx-xxxx".
- `getridofduplicates.py` is a one-off script. It reads a
  comma-separated city/zip file into a dictionary keyed by integer zip
  code, then writes one `zip|lat|lon` record per key to a new file. The
  longitude keeps the newline its input line ended with, so every record
  is followed by an empty line.

Modules, one file each:

- `Results` (`results.dfy`): `Option`, `Result` and the Python exceptions
  the code can raise (`IndexError`, `KeyError`, `ValueError`,
  `ZeroDivisionError`).
- `Model` (`model.dfy`): the database rows the helpers read (category,
  product, user, rental history, rating). The rows are records.
- `PyText` (`pytext.dfy`): the Python 2 string built-ins the code relies
  on:
  - `str.split()` and `str.split(',')`;
  - `str.replace(',', '')` and `str.strip()`;
  - `int()` on text and `str()` on integers.
- `SearchHelpers` (`search_helpers.dfy`): the search helpers, each as a
  specification function plus a method with the source's loops.
- `DistanceCache` (`distance_cache.dfy`): the literal distance table of
  `search_radius`, and the searches the unit tests run against it.
- `MakeUpdateHelpers` (`make_update_helpers.dfy`): rating average, merge
  sort on arrays, phone layout.
- `GetRidOfDuplicates` (`getridofduplicates.dfy`): the duplicate
  removal, the output file as a `TextFile` object, and what the written
  text contains.

How the code is modelled:

- Every method that loops in the source loops here too. Most are proved
  equal to a specification function over sequences, and the properties
  are then proved about those functions as lemmas. `FormatPhoneNumber`
  instead states its result character by character.
- Where the source raises an exception, the model returns `Err` with
  that exception. Examples: `line[-2]` of a destination with fewer than
  two words, a product whose category name is not a key, `int()` of a
  non-number, an average with no truthy stars, a phone number shorter
  than ten characters.
- The merge sort overwrites the caller's array in place, as the source
  overwrites the caller's list.
- The written file is a `TextFile` object whose `contents` field is
  truncated and then appended to.

## Model

| member | source | states |
|---|---|---|
| SearchHelpers.UnwrapRows | search_helpers.py:49-52 | returns the first column of every database row, in order |
| SearchHelpers.LookUpCached | search_helpers.py:57-66 | the codes the center's table covers within the radius, and separately all codes the table covers, both in input order |
| SearchHelpers.CodesWithinRadius | search_helpers.py:87-102 | keeps the service entries within the radius, takes their destinations and parses each one; the first address with fewer than two words makes the whole result None |
| SearchHelpers.KeepNear | search_helpers.py:87-90 | keeps the service entries within the radius, in order |
| SearchHelpers.TakeDestinations | search_helpers.py:94-96 | takes the destination address of every kept entry, in order |
| SearchHelpers.ParseDestinations | search_helpers.py:99-102 | the postal code of every destination in order, or None at the first address with fewer than two words |
| SearchHelpers.ParseAllParsesEach | search_helpers.py:99-102 | the destinations parse exactly when every address has at least two words; the codes then correspond one to one and in order to the addresses |
| SearchHelpers.NearItemsMembers | search_helpers.py:87-90 | an entry is kept exactly when it is one of the service's entries and lies within the radius |
| SearchHelpers.DestinationsAt | search_helpers.py:94-96 | the i-th destination taken is the i-th kept entry's address |
| SearchHelpers.SearchWithTable | search_helpers.py:49-104 | the whole search. The result is the cached hits, followed by the parsed service hits for the codes the table does not cover. The service is asked only when some code is left. A short destination makes the result IndexError |
| DistanceCache.SearchRadius | search_helpers.py:11-104 | `search_radius` over the source's literal two-center distance table |
| SearchHelpers.CachedSplit | search_helpers.py:57-70 | the covered codes and the uncovered codes together account for every input code; a code is covered iff it is in the table |
| SearchHelpers.WithoutCachedIsUncached | search_helpers.py:69-70 | removing the covered codes, as the list comprehension does, leaves exactly the codes the table lacks |
| SearchHelpers.CachedWithinMembers | search_helpers.py:61-64 | a code is a cached hit iff it is an input code, the table has it, and its distance is at most the radius |
| SearchHelpers.CachedWithinAppend | search_helpers.py:61-64 | the cached hits of two concatenated code lists are the concatenation of their hits |
| SearchHelpers.CachedWithinMonotone | search_helpers.py:61-64 | the cached hits of a smaller radius are an ordered subsequence of those of a larger radius |
| SearchHelpers.ForwardedMembers | search_helpers.py:54-73 | a cached center forwards exactly the codes its table lacks; an uncached center forwards every code |
| SearchHelpers.UncachedMembers | search_helpers.py:69-70 | a code is left for the service iff it is an input code the table lacks |
| SearchHelpers.UncachedEmpty | search_helpers.py:69-73 | when the table covers every code, nothing is left for the service |
| SearchHelpers.RowCodesAt | search_helpers.py:51-52 | the i-th unwrapped code is the i-th row's postal code |
| SearchHelpers.RowCodesMembers | search_helpers.py:51-52 | a code is unwrapped iff some row holds it |
| SearchHelpers.AllCachedNeedsNoService | search_helpers.py:69-73 | when the center's table covers every row, what the external service answers does not change the result |
| SearchHelpers.NearItemsMonotone | search_helpers.py:87-90 | the service entries kept for a smaller radius are an ordered subsequence of those for a larger one |
| SearchHelpers.DestinationsSubseq | search_helpers.py:94-96 | taking destinations preserves the subsequence order |
| SearchHelpers.ParseAllFailsAfter | search_helpers.py:99-102 | once a prefix of the destinations fails to parse, so do all the destinations |
| SearchHelpers.ParseAllSubseq | search_helpers.py:99-102 | if all destinations of a list parse, so do those of any subsequence, giving a subsequence of the codes |
| SearchHelpers.SearchRadiusMonotone | search_helpers.py:11-104 | searching with a smaller radius also succeeds, and returns an ordered subsequence of the codes found with a larger radius |
| SearchHelpers.ParseDestinationOfWords | search_helpers.py:99-101 | for an address of two or more words joined by spaces, the code is the second-to-last word with its commas removed |
| SearchHelpers.ParseCityStateZipCountry | search_helpers.py:99-101 | "City, ST zip, Country" yields the zip, for one-word fields |
| DistanceCache.TestCodes | camper_tests.py:305 | the five test rows unwrap to the five test codes in order |
| DistanceCache.TestSearchFromOakland | camper_tests.py:300-308 | from 94612 with the test rows: within 20 miles 94612 and 94109; within 60 miles also 94040 and 95376; the service is never asked |
| DistanceCache.TestSearchFromSanFrancisco | camper_tests.py:300-310 | from 94109 with the test rows: within 20 miles 94612 and 94109; within 60 miles also 94040 but not 95376 (62.137 miles) |
| SearchHelpers.FilterProducts | search_helpers.py:124-149 | both ids negative returns the input list itself; otherwise the result is the ordered filter of the branch taken (category only, brand only, or both) |
| SearchHelpers.KeptSubseq | search_helpers.py:134-147 | the filtered list is an ordered subsequence of the input |
| SearchHelpers.FilteredIsSubseq | search_helpers.py:124-149 | for any ids, the result of filter_products is an ordered subsequence of its input |
| SearchHelpers.FilteredMembers | search_helpers.py:133-147 | unless both ids are negative, a product is kept iff it is an input product matching the branch's condition |
| SearchHelpers.KeptMembers | search_helpers.py:136-147 | a product is kept iff it is in the input and matches the branch's condition |
| SearchHelpers.GetProductsWithinDates | search_helpers.py:152-169 | loops over the users, then over each active user's products, appending those offered for the whole period, in order |
| SearchHelpers.OfferedMembers | search_helpers.py:165-167 | a product of a user is kept iff it is available, starts on or before the start date and ends on or after the end date |
| SearchHelpers.ProductsWithinDatesMembers | search_helpers.py:161-169 | a product is in the result iff it is offered for the whole period and listed by some active user |
| SearchHelpers.WindowBoundaries | search_helpers.py:166 | both bounds are inclusive: a window exactly equal to the request matches, one ending a day early does not |
| SearchHelpers.CategoryNamesMembers | search_helpers.py:181-182 | a name is an inventory key iff some given category has that name |
| SearchHelpers.EmptyInventory | search_helpers.py:179-182 | builds the inventory with one empty bucket per category name |
| SearchHelpers.EmptyBucketsKeys | search_helpers.py:179-182 | the starting inventory's keys are exactly the category names, and every bucket is empty |
| SearchHelpers.CategorizeProducts | search_helpers.py:172-187 | appends each product to its category's bucket, in order; a KeyError when the product's category name is not a key |
| SearchHelpers.CategorizedFailsAfter | search_helpers.py:184-185 | once a prefix of the products raises, the whole call raises the same error |
| SearchHelpers.CategorizedBuckets | search_helpers.py:172-187 | succeeds iff every product's category name is a key. On success the keys are exactly the category names, and each bucket is exactly that category's products, in input order |
| SearchHelpers.CategorizedKeyError | search_helpers.py:184-185 | on failure, the error names the first product whose category name is missing, and every earlier product's name was present |
| SearchHelpers.InCategoryMembers | search_helpers.py:184-185 | a product is in a bucket iff it is an input product of that category |
| SearchHelpers.BucketTotalAppend | search_helpers.py:184-185 | appending a product adds it to the buckets named after its category, once per occurrence of that name |
| SearchHelpers.BucketsPartition | search_helpers.py:179-185 | with distinct category names covering every product, the bucket sizes add up to the number of products: every product lands in exactly one bucket |
| SearchHelpers.InventorySizeOfBuckets | search_helpers.py:184-185 | when each named bucket holds exactly its category's products, the bucket sizes add up as the per-category counts do |
| SearchHelpers.CategorizedPartition | search_helpers.py:172-187 | on success, over any duplicate-free listing of the returned dictionary's keys, the bucket sizes add up to the number of products: each product lands in exactly one bucket |
| SearchHelpers.BucketsEmpty | search_helpers.py:179-182 | no products means empty buckets |
| SearchHelpers.SearchShowsOnlyOfferedProducts | server.py:466-471 | every product the search page keeps after filtering is available for the whole period and listed by an active user |
| MakeUpdateHelpers.CalcAvgStarRating | make_update_helpers.py:355-376 | -1 for no ratings. A ZeroDivisionError iff there are ratings but none has truthy stars. Otherwise the sum of the truthy stars over their count |
| MakeUpdateHelpers.StarCountZero | make_update_helpers.py:369-372 | the count of truthy ratings is zero iff no rating has truthy stars |
| MakeUpdateHelpers.StarSumBounds | make_update_helpers.py:369-372 | when every counted star value lies in [lo, hi], the sum lies between lo and hi times the count |
| MakeUpdateHelpers.AverageWithinStars | make_update_helpers.py:355-376 | with at least one counted rating, the average exists and lies between the smallest and the largest possible star value |
| MakeUpdateHelpers.UnstarredIgnored | make_update_helpers.py:370 | a rating with zero stars changes neither the sum nor the count |
| MakeUpdateHelpers.TestAverageOfThree | camper_tests.py:330-336 | stars 4, 2 and 3 average to 3 |
| MakeUpdateHelpers.ReverseMergeSortHistories | make_update_helpers.py:379-428 | overwrites the array with the recursive merge sort of its old contents. The result is newest-first and a permutation of the input. The array itself is returned when it has at least two histories, otherwise None |
| MakeUpdateHelpers.MergeInto | make_update_helpers.py:397-426 | the three loops leave in the array exactly the merge of the two sorted halves |
| MakeUpdateHelpers.MergeHeads | make_update_helpers.py:405-414 | the comparison loop ends with one half used up. It has written the merge's first lst1_index + lst2_index histories, and the rest of the merge is the two halves' remainders. It leaves the other slots as they were |
| MakeUpdateHelpers.PlaceNext | make_update_helpers.py:407-412 | one pass of the comparison loop writes the strictly later head (on equal dates the second half's) at ordered_lst_index, advances that half's index, and changes no other slot. Measured against the merge of the two halves, the slot written holds the merge's next history, and the rest of the merge is that of the halves' new remainders |
| MakeUpdateHelpers.CopyRemaining | make_update_helpers.py:418-426 | a trailing loop copies the rest of one half into the next slots and leaves the other slots as they were |
| MakeUpdateHelpers.MergeAdvance | make_update_helpers.py:407-412 | one comparison step: the strictly later head is written next, and on equal dates the right head is |
| MakeUpdateHelpers.MergePermutes | make_update_helpers.py:405-426 | the merge holds exactly the histories of both halves |
| MakeUpdateHelpers.MergeNewestFirst | make_update_helpers.py:405-426 | merging two newest-first lists gives a newest-first list whose head is the later of the two heads |
| MakeUpdateHelpers.MergeSortedProperties | make_update_helpers.py:379-428 | the sort's result is newest-first, a permutation of the input and of the same length |
| MakeUpdateHelpers.MergeSortedNewestFirst | make_update_helpers.py:386-394 | the recursive sort yields a newest-first list |
| MakeUpdateHelpers.MergeSortedPermutes | make_update_helpers.py:386-394 | the recursive sort yields a permutation of its input |
| MakeUpdateHelpers.NewestFirstPairwise | make_update_helpers.py:379-384 | in a newest-first list, every earlier history is at least as recent as every later one |
| MakeUpdateHelpers.MergeTieTakesRight | make_update_helpers.py:407-412 | on equal submission dates the second half's history is placed first |
| MakeUpdateHelpers.TiesSwap | make_update_helpers.py:386-412 | the sort is not stable: two histories with the same date come out swapped |
| MakeUpdateHelpers.FormatPhoneNumber | make_update_helpers.py:431-457 | "(" + characters 0-2 + ") " + characters 3-5 + "-" + characters 6-9, 14 characters in all; an IndexError iff there are fewer than ten characters |
| PyText.WordLengthOfWord | search_helpers.py:100 | the first word of a word followed by whitespace is that word |
| PyText.SplitAfterWord | search_helpers.py:100 | splitting a word followed by whitespace yields the word, then the split of the rest |
| PyText.SplitLeadingSpace | search_helpers.py:100 | a leading space does not change the split |
| PyText.SplitJoinSpaced | search_helpers.py:100 | splitting words joined by single spaces gives back the words |
| PyText.RemoveAllAbsent | search_helpers.py:101 | removing a character that does not occur returns the text unchanged |
| PyText.RemoveAllAppend | search_helpers.py:101 | removing a character distributes over concatenation |
| PyText.JoinSplitOn | getridofduplicates.py:5 | joining the comma-split fields with commas gives back the row |
| PyText.SplitOnPrefix | getridofduplicates.py:5 | a separator-free prefix becomes part of the first field |
| PyText.SplitOnJoin | getridofduplicates.py:5 | splitting separator-free fields joined with the separator gives back the fields |
| PyText.SplitOnCount | getridofduplicates.py:5 | `split(',')` yields one field more than the text has commas |
| PyText.StripUnspaced | getridofduplicates.py:4 | strip leaves text without outer whitespace unchanged |
| PyText.DigitsValueOfNatToString | getridofduplicates.py:6 | reading back the decimal digits of a natural number gives the number |
| PyText.ParseIntOfIntToString | getridofduplicates.py:6-18 | `int(str(n)) == n` for every integer, negative ones included |
| PyText.DigitsValueLeadingZero | getridofduplicates.py:6 | a leading zero does not change the value of a digit string |
| PyText.ParseIntLeadingZero | getridofduplicates.py:6 | `int` of a decimal numeral with a leading zero is the numeral's value |
| PyText.SignThenSpace | getridofduplicates.py:6 | Python 2's `int` skips whitespace between the sign and the digits (`"- 5"` is -5, `"+ 07"` is 7) but rejects whitespace between digits |
| GetRidOfDuplicates.ParseRowOutcomes | getridofduplicates.py:5-8 | a row with fewer than two commas raises IndexError. Otherwise a field 2 that `int` rejects raises ValueError. A valid key with fewer than four commas raises IndexError. A row parses iff it has at least four commas and field 2 is an integer; it is then keyed on `int` of field 2 and keeps fields 3 and 4 |
| GetRidOfDuplicates.GetRidOfDuplicates | getridofduplicates.py:1-11 | builds the dictionary row by row (a later row overwrites an earlier one with the same zip); the first row that raises ends the call with its error |
| GetRidOfDuplicates.CollectFailsAfter | getridofduplicates.py:3-9 | once a prefix of the rows raises, the whole call raises the same error |
| GetRidOfDuplicates.CollectOk | getridofduplicates.py:3-9 | the call succeeds iff every row parses |
| GetRidOfDuplicates.CollectKeys | getridofduplicates.py:6-9 | when every row parses, the keys are exactly the integer zip codes of the rows |
| GetRidOfDuplicates.LastRowWins | getridofduplicates.py:9 | a zip's value is the coordinates of the last row with that zip |
| GetRidOfDuplicates.FirstBadRowRaises | getridofduplicates.py:5-6 | the error raised is that of the first row that does not parse |
| GetRidOfDuplicates.ParseRowOfFields | getridofduplicates.py:4-8 | a row of five comma-free fields yields `int` of the third as the key and the fourth and fifth as they are. The result of `strip()` is discarded, so the last field keeps whatever whitespace it ends with, such as the newline |
| GetRidOfDuplicates.LeadingZeroLost | getridofduplicates.py:5-18 | a row whose zip field is "0" followed by str(n) (such as '02139') is keyed n (2139); the record written for that key starts with the field str(n), which for a positive n has no leading zero |
| GetRidOfDuplicates.TextFile.constructor | getridofduplicates.py:14 | a file object over the given contents |
| GetRidOfDuplicates.TextFile.Truncate | getridofduplicates.py:15 | the contents become empty |
| GetRidOfDuplicates.TextFile.Write | getridofduplicates.py:19-20 | appends the text to the contents |
| GetRidOfDuplicates.Records | getridofduplicates.py:17-18 | one `str(zip)|lat|lon` record per key of the chosen order |
| GetRidOfDuplicates.WriteToNewFile | getridofduplicates.py:13-20 | truncates the target, then writes each key once, in an order it chooses, as `str(zip)|lat|lon` followed by "\n"; it returns the order it used |
| GetRidOfDuplicates.EnumerationLength | getridofduplicates.py:17 | an order that visits every key exactly once is as long as the dictionary |
| GetRidOfDuplicates.IntToStringPlain | getridofduplicates.py:18 | `str(zip)` holds neither '\n' nor '|' |
| GetRidOfDuplicates.RecordFields | getridofduplicates.py:18 | when the coordinates hold no '|', a record splits on '|' into `str(zip)`, lat and lon, and `int` of the first field gives the zip back |
| GetRidOfDuplicates.SerializedIsJoined | getridofduplicates.py:17-20 | the written text is the records joined by "\n", with a final "\n" |
| GetRidOfDuplicates.SerializedLines | getridofduplicates.py:17-20 | when no coordinate holds a newline, the text splits on "\n" into exactly the records plus a final empty piece, one record per distinct key |
| GetRidOfDuplicates.RecordsPlain | getridofduplicates.py:18 | when no coordinate holds a newline, no record does |
| GetRidOfDuplicates.SerializedNewlines | getridofduplicates.py:17-20 | the text holds one newline per key written, plus those inside the coordinates |
| GetRidOfDuplicates.RecordNewlines | getridofduplicates.py:18 | a record holds exactly the newlines of its lat and lon |
| GetRidOfDuplicates.TwoNewlinesPerRecord | getridofduplicates.py:4-20 | when each longitude holds exactly one newline and each latitude none, the text holds two newlines per key written |
| GetRidOfDuplicates.LineEndKept | getridofduplicates.py:3-8 | a five-field input line ending in its newline (`strip()`'s result is discarded) parses, and its longitude ends in that line's only newline |
| GetRidOfDuplicates.RecordLine | getridofduplicates.py:18 | for coordinates read with their line ending, the record is this newline-free line followed by "\n" |
| GetRidOfDuplicates.LinesWithBlanks | getridofduplicates.py:17-20 | the expected lines of the written file, two per key |
| GetRidOfDuplicates.LinesWithBlanksPlain | getridofduplicates.py:17-20 | for rows read with their line endings, none of those lines (nor the final empty piece) holds a newline |
| GetRidOfDuplicates.LinesWithBlanksAt | getridofduplicates.py:17-20 | line 2i is the i-th key's record without its newline; line 2i+1 is empty |
| GetRidOfDuplicates.SerializedIsJoinedWithBlanks | getridofduplicates.py:17-20 | the written text is those lines joined by "\n", with a final "\n" |
| GetRidOfDuplicates.BlankLineAfterEachRecord | getridofduplicates.py:4-20 | when each longitude ends in its input line's newline, the text splits on "\n" into 2·n+1 pieces: piece 2i plus "\n" is the i-th key's record, piece 2i+1 is empty, and so is the last piece. Every record is followed by an empty line |
| GetRidOfDuplicates.CoordinateNewlinesCount | getridofduplicates.py:7-8 | one newline per longitude and none per latitude gives one coordinate newline per key |
| GetRidOfDuplicates.RemoveDuplicateZips | getridofduplicates.py:24-26 | the script. A failed read leaves the target file as it was and returns the error. Otherwise the target holds the serialization of the deduplicated dictionary, in an order that visits every key once |

## Left out

- The Google Maps distance service and `os.environ['GOOGLE_API_KEY']` are outside the model. The service is a function parameter whose answers are not modelled. The missing-key `KeyError` of the environment lookup is not modelled. Failures of the service itself (network errors, or the rate-limit "eof error" noted at search_helpers.py:25-27) are not modelled either: every call is taken to return a distance matrix.
- `get_users_in_area` is a database query (`User.query.filter(...)`) followed by a list removal. It is not modelled; the search composition takes the users as given.
- `calc_default_dates` and `convert_string_to_datetime` read the clock and parse dates. They are not part of this model: dates are integers that order like the datetimes they stand for.
- The ORM, the Flask routes, the templates, the sessions and `seed.py` are not part of this model. Rows are plain records, and `product.category.cat_name` is a field of the product.
- Floating-point numbers are exact reals. Distances and averages therefore carry no rounding.
- CalcAvgStarRating: the integer -1 of the source is the real -1.0, since the result is otherwise a float.
- CalcAvgStarRating: stars are integers, as the schema declares them non-nullable. A `None` star value is not modelled; truthiness is `!= 0`.
- Whitespace for Python 2 `str.split()` and `str.strip()` is the six ASCII whitespace characters. Unicode whitespace is not modelled.
- ParseInt models Python 2's `int()` on text in base 10: surrounding whitespace, an optional sign, whitespace after the sign, then decimal digits. A trailing `L`, which only `long()` accepts, is not modelled.
- WriteToNewFile: the dictionary's iteration order is arbitrary in Python 2. The method chooses any remaining key at each step and returns the order it used, so the contract holds for every order.
- SearchRadius: the loops of `search_radius` are split into the methods UnwrapRows, LookUpCached, KeepNear, TakeDestinations and ParseDestinations. The distance table is passed as a parameter to SearchWithTable, so its lemmas hold for any table.
- ReverseMergeSortHistories: the halves are new arrays, as the source's slices are new lists. The three merge loops are split into MergeHeads, whose body is PlaceNext, and CopyRemaining.
- CategorizeProducts: the two loops are split into EmptyInventory and the product loop. Python's dict is a Dafny map, so the in-place `append` to a bucket is an update of the map.
- GetRidOfDuplicates: opening and closing files and the file paths are not modelled. The input file is its sequence of lines, each with its newline. The output file is a `TextFile` object.
