/** The display helpers: the average star rating shown on profile and
    product pages, the rental-history ordering of the account page, and
    the phone number layout. */
module MakeUpdateHelpers {
  import opened Results
  import opened Model

  // ---------------------------------------------------------------------
  // calc_avg_star_rating

  /** A rating counts when its stars are truthy, that is non-zero. */
  predicate HasStars(rating: Rating) {
    rating.stars != 0
  }

  /** The sum of the truthy star values. */
  function StarSum(ratings: seq<Rating>): (sum: int) {
    if ratings == [] then 0
    else
      var rating := ratings[|ratings| - 1];
      StarSum(ratings[..|ratings| - 1]) + (if HasStars(rating) then rating.stars else 0)
  }

  /** The number of ratings with truthy stars. */
  function StarCount(ratings: seq<Rating>): (count: nat) {
    if ratings == [] then 0
    else StarCount(ratings[..|ratings| - 1]) + (if HasStars(ratings[|ratings| - 1]) then 1 else 0)
  }

  /** What `calc_avg_star_rating` returns: -1 for no ratings, otherwise the
      mean of the truthy stars, a division by zero when there are none. */
  function AverageStarRating(ratings: seq<Rating>): (average: Result<real>) {
    if ratings == [] then Ok(-1.0)
    else if StarCount(ratings) == 0 then Err(ZeroDivisionError)
    else Ok(StarSum(ratings) as real / StarCount(ratings) as real)
  }

  /** `calc_avg_star_rating`. */
  method CalcAvgStarRating(ratings: seq<Rating>) returns (r: Result<real>)
    ensures r == AverageStarRating(ratings)
    ensures ratings == [] ==> r == Ok(-1.0)
    ensures r.Err? <==> ratings != [] && forall k :: 0 <= k < |ratings| ==> !HasStars(ratings[k])
  {
    var avgStarRating := -1.0;
    if ratings != [] {
      var sumStars := 0;
      var countStarRatings := 0;
      for i := 0 to |ratings|
        invariant sumStars == StarSum(ratings[..i])
        invariant countStarRatings == StarCount(ratings[..i])
      {
        assert ratings[..i + 1][..i] == ratings[..i];
        if ratings[i].stars != 0 {
          sumStars := sumStars + ratings[i].stars;
          countStarRatings := countStarRatings + 1;
        }
      }
      assert ratings[..|ratings|] == ratings;
      StarCountZero(ratings);
      if countStarRatings == 0 {
        return Err(ZeroDivisionError);
      }
      avgStarRating := sumStars as real / countStarRatings as real;
    }
    return Ok(avgStarRating);
  }

  /** No rating counts exactly when none has truthy stars. */
  lemma {:induction false} StarCountZero(ratings: seq<Rating>)
    ensures StarCount(ratings) == 0 <==> forall k :: 0 <= k < |ratings| ==> !HasStars(ratings[k])
  {
    if ratings != [] {
      var rest := ratings[..|ratings| - 1];
      StarCountZero(rest);
      assert forall k :: 0 <= k < |rest| ==> rest[k] == ratings[k];
    }
  }

  lemma {:induction false} StarSumBounds(ratings: seq<Rating>, lo: int, hi: int)
    requires forall k :: 0 <= k < |ratings| && HasStars(ratings[k]) ==> lo <= ratings[k].stars <= hi
    ensures lo * StarCount(ratings) <= StarSum(ratings) <= hi * StarCount(ratings)
  {
    if ratings != [] {
      var rest := ratings[..|ratings| - 1];
      var last := ratings[|ratings| - 1];
      assert forall k :: 0 <= k < |rest| ==> rest[k] == ratings[k];
      StarSumBounds(rest, lo, hi);
      var c := StarCount(rest);
      if HasStars(last) {
        assert lo <= last.stars <= hi;
        assert lo * (c + 1) == lo * c + lo;
        assert hi * (c + 1) == hi * c + hi;
      }
    }
  }

  /** Integer bounds on a sum carry over to the real quotient. */
  lemma MeanBounds(sum: int, count: int, lo: int, hi: int)
    requires count > 0 && lo * count <= sum <= hi * count
    ensures lo as real <= sum as real / count as real <= hi as real
  {
    var mean := sum as real / count as real;
    assert mean * count as real == sum as real;
    assert (lo * count) as real == lo as real * count as real;
    assert (hi * count) as real == hi as real * count as real;
  }

  /** The average lies between the smallest and the largest truthy star
      value: with stars from 1 to 5 it is a rating from 1 to 5. */
  lemma AverageWithinStars(ratings: seq<Rating>, lo: int, hi: int)
    requires forall k :: 0 <= k < |ratings| && HasStars(ratings[k]) ==> lo <= ratings[k].stars <= hi
    requires StarCount(ratings) > 0
    ensures AverageStarRating(ratings).Ok?
    ensures lo as real <= AverageStarRating(ratings).value <= hi as real
  {
    StarSumBounds(ratings, lo, hi);
    MeanBounds(StarSum(ratings), StarCount(ratings), lo, hi);
  }

  /** Ratings without stars are left out of both the sum and the count. */
  lemma {:induction false} UnstarredIgnored(ratings: seq<Rating>, unstarred: Rating)
    requires !HasStars(unstarred)
    ensures StarSum(ratings + [unstarred]) == StarSum(ratings)
    ensures StarCount(ratings + [unstarred]) == StarCount(ratings)
  {
    assert (ratings + [unstarred])[..|ratings|] == ratings;
  }

  /** Stars of 4, 2 and 3 average to 3. */
  lemma TestAverageOfThree(r1: Rating, r2: Rating, r3: Rating)
    requires r1.stars == 4 && r2.stars == 2 && r3.stars == 3
    ensures AverageStarRating([r1, r2, r3]) == Ok(3.0)
  {
    var ratings := [r1, r2, r3];
    assert [r1][..0] == [];
    assert StarSum([r1]) == 4 && StarCount([r1]) == 1;
    assert [r1, r2][..1] == [r1];
    assert StarSum([r1, r2]) == 6 && StarCount([r1, r2]) == 2;
    assert ratings[..2] == [r1, r2];
    assert StarSum(ratings) == 9;
    assert StarCount(ratings) == 3;
  }

  // ---------------------------------------------------------------------
  // reverse_merge_sort_histories

  /** Non-increasing by submission date, pair by adjacent pair. */
  predicate NewestFirst(s: seq<History>) {
    forall i :: 0 < i < |s| ==> s[i - 1].rentalSubmissionDate >= s[i].rentalSubmissionDate
  }

  /** The merge of the source: the left head goes first only when it is
      strictly later; on equal dates the right head goes first. */
  function Merge(left: seq<History>, right: seq<History>): (merged: seq<History>)
    ensures |merged| == |left| + |right|
    decreases |left| + |right|
  {
    if left == [] then right
    else if right == [] then left
    else if left[0].rentalSubmissionDate > right[0].rentalSubmissionDate then [left[0]] + Merge(left[1..], right)
    else [right[0]] + Merge(left, right[1..])
  }

  /** The recursive sort of the source: split at half the length (rounded
      down), sort both halves, merge. */
  function MergeSorted(s: seq<History>): (merged: seq<History>)
    decreases |s|
  {
    if |s| <= 1 then s
    else Merge(MergeSorted(s[..|s| / 2]), MergeSorted(s[|s| / 2..]))
  }

  /** `reverse_merge_sort_histories`. Overwrites the list in place and
      returns it when it has at least two histories; otherwise leaves it as
      it is and returns nothing (None). */
  method ReverseMergeSortHistories(lst: array<History>) returns (r: Option<array<History>>)
    modifies lst
    ensures lst[..] == MergeSorted(old(lst[..]))
    ensures NewestFirst(lst[..]) && multiset(lst[..]) == multiset(old(lst[..]))
    ensures r == if lst.Length > 1 then Some(lst) else None
    decreases lst.Length
  {
    ghost var input := lst[..];
    if lst.Length <= 1 {
      MergeSortedProperties(input);
      return None;
    }
    var midpt := lst.Length / 2;
    var lst1 := new History[midpt](i requires 0 <= i < midpt reads lst => lst[i]);
    var lst2 := new History[lst.Length - midpt](i requires 0 <= i < lst.Length - midpt reads lst => lst[midpt + i]);
    assert lst1[..] == input[..midpt];
    assert lst2[..] == input[midpt..];

    var _ := ReverseMergeSortHistories(lst1);
    var _ := ReverseMergeSortHistories(lst2);
    MergeInto(lst, lst1, lst2);
    MergeSortedProperties(input);
    return Some(lst);
  }

  /** The merge phase of `reverse_merge_sort_histories`: the counters
      `lst1_index`, `lst2_index` and `ordered_lst_index` overwrite the list
      with the merge of the two sorted halves. */
  method MergeInto(lst: array<History>, lst1: array<History>, lst2: array<History>)
    requires lst != lst1 && lst != lst2
    requires lst.Length == lst1.Length + lst2.Length
    modifies lst
    ensures lst[..] == Merge(lst1[..], lst2[..])
  {
    ghost var left, right := lst1[..], lst2[..];
    ghost var merged := Merge(left, right);
    var lst1Index, lst2Index, orderedLstIndex := MergeHeads(lst, lst1, lst2);
    ghost var heads := lst[..];
    // One of the halves is used up; the rest of the other goes at the end.
    var afterLst1 := CopyRemaining(lst, lst1, lst1Index, orderedLstIndex);
    ghost var withLst1 := lst[..];
    var end := CopyRemaining(lst, lst2, lst2Index, afterLst1);
    MergeAssembled(merged, left, right, heads, withLst1, lst[..], lst1Index, lst2Index, orderedLstIndex, afterLst1);
  }

  /** The list after the three loops of the merge phase: the merge's first
      histories, then what was left of the first half, then what was left of
      the second half, which together are the whole merge. */
  lemma MergeAssembled(merged: seq<History>, left: seq<History>, right: seq<History>,
                       heads: seq<History>, withLeft: seq<History>, final: seq<History>,
                       i: nat, j: nat, k: nat, afterLeft: nat)
    requires i <= |left| && j <= |right| && k <= |heads| && k <= |merged|
    requires afterLeft == k + (|left| - i) && afterLeft <= |withLeft| && afterLeft <= |final|
    requires heads[..k] == merged[..k] && merged[k..] == left[i..] + right[j..]
    requires withLeft[..k] == heads[..k] && withLeft[k..afterLeft] == left[i..]
    requires final[..afterLeft] == withLeft[..afterLeft] && final[afterLeft..] == right[j..]
    ensures final == merged
  {
    SliceJoin(withLeft[..afterLeft], k);
    assert withLeft[..afterLeft][..k] == withLeft[..k];
    assert withLeft[..afterLeft][k..] == withLeft[k..afterLeft];
    SliceJoin(final, afterLeft);
    SliceJoin(merged, k);
  }

  lemma SliceJoin(s: seq<History>, k: nat)
    requires k <= |s|
    ensures s == s[..k] + s[k..]
  {
  }

  /** The first loop of the merge phase: while both halves have histories
      left, the one with the later submission date is written next. It
      stops when one half is used up; what follows in the merge is then
      the rest of both halves. */
  method MergeHeads(lst: array<History>, lst1: array<History>, lst2: array<History>)
    returns (lst1Index: nat, lst2Index: nat, orderedLstIndex: nat)
    requires lst != lst1 && lst != lst2
    requires lst.Length == lst1.Length + lst2.Length
    modifies lst
    ensures lst1Index <= lst1.Length && lst2Index <= lst2.Length
    ensures lst1Index == lst1.Length || lst2Index == lst2.Length
    ensures orderedLstIndex == lst1Index + lst2Index
    ensures lst[..orderedLstIndex] == Merge(lst1[..], lst2[..])[..orderedLstIndex]
    ensures Merge(lst1[..], lst2[..])[orderedLstIndex..] == lst1[lst1Index..] + lst2[lst2Index..]
    ensures lst[orderedLstIndex..] == old(lst[orderedLstIndex..])
  {
    ghost var left, right := lst1[..], lst2[..];
    ghost var merged := Merge(left, right);
    ghost var before := lst[..];
    lst1Index, lst2Index, orderedLstIndex := 0, 0, 0;
    while lst1Index < lst1.Length && lst2Index < lst2.Length
      invariant 0 <= lst1Index <= lst1.Length && 0 <= lst2Index <= lst2.Length
      invariant orderedLstIndex == lst1Index + lst2Index
      invariant forall t :: 0 <= t < orderedLstIndex ==> lst[t] == merged[t]
      invariant Merge(left[lst1Index..], right[lst2Index..]) == merged[orderedLstIndex..]
      invariant forall t :: orderedLstIndex <= t < lst.Length ==> lst[t] == before[t]
      decreases lst1.Length + lst2.Length - orderedLstIndex
    {
      lst1Index, lst2Index := PlaceNext(lst, lst1, lst2, lst1Index, lst2Index, orderedLstIndex, left, right, merged);
      orderedLstIndex := orderedLstIndex + 1;
    }
    assert lst[..orderedLstIndex] == merged[..orderedLstIndex];
    assert lst[orderedLstIndex..] == before[orderedLstIndex..];
    assert lst1Index == |left| ==> left[lst1Index..] == [];
    assert lst2Index == |right| ==> right[lst2Index..] == [];
  }

  /** One pass of the comparison loop: the strictly later head is written
      at `orderedLstIndex` (on equal dates the second half's head), and the
      index of the half it came from moves on. Measured against the merge of
      the two halves, the slot written holds the merge's next history and
      the rest of the merge is that of the halves' new remainders. */
  method PlaceNext(lst: array<History>, lst1: array<History>, lst2: array<History>,
                   lst1Index: nat, lst2Index: nat, orderedLstIndex: nat,
                   ghost left: seq<History>, ghost right: seq<History>, ghost merged: seq<History>)
    returns (nextLst1Index: nat, nextLst2Index: nat)
    requires lst != lst1 && lst != lst2
    requires lst1Index < lst1.Length && lst2Index < lst2.Length && orderedLstIndex < lst.Length
    requires lst1Index + lst2Index == orderedLstIndex
    requires left == lst1[..] && right == lst2[..] && orderedLstIndex <= |merged|
    requires Merge(left[lst1Index..], right[lst2Index..]) == merged[orderedLstIndex..]
    modifies lst
    ensures nextLst1Index <= lst1.Length && nextLst2Index <= lst2.Length
    ensures nextLst1Index + nextLst2Index == orderedLstIndex + 1
    ensures orderedLstIndex < |merged| && lst[orderedLstIndex] == merged[orderedLstIndex]
    ensures Merge(left[nextLst1Index..], right[nextLst2Index..]) == merged[orderedLstIndex + 1..]
    ensures lst1[lst1Index].rentalSubmissionDate > lst2[lst2Index].rentalSubmissionDate ==>
              lst[orderedLstIndex] == lst1[lst1Index] && nextLst1Index == lst1Index + 1 && nextLst2Index == lst2Index
    ensures lst1[lst1Index].rentalSubmissionDate <= lst2[lst2Index].rentalSubmissionDate ==>
              lst[orderedLstIndex] == lst2[lst2Index] && nextLst1Index == lst1Index && nextLst2Index == lst2Index + 1
    ensures forall t :: 0 <= t < lst.Length && t != orderedLstIndex ==> lst[t] == old(lst[t])
  {
    MergeAdvance(left, right, merged, lst1Index, lst2Index, orderedLstIndex);
    if lst1[lst1Index].rentalSubmissionDate > lst2[lst2Index].rentalSubmissionDate {
      lst[orderedLstIndex] := lst1[lst1Index];
      nextLst1Index, nextLst2Index := lst1Index + 1, lst2Index;
    } else {
      lst[orderedLstIndex] := lst2[lst2Index];
      nextLst1Index, nextLst2Index := lst1Index, lst2Index + 1;
    }
  }

  /** The trailing loops of `reverse_merge_sort_histories`: copy what is
      left of one half, from `srcIndex` on, into the list from `lstIndex`
      on, and return the position after the last one written. */
  method CopyRemaining(lst: array<History>, src: array<History>, srcIndex: nat, lstIndex: nat) returns (next: nat)
    requires lst != src
    requires srcIndex <= src.Length && lstIndex + (src.Length - srcIndex) <= lst.Length
    modifies lst
    ensures next == lstIndex + (src.Length - srcIndex)
    ensures lst[..lstIndex] == old(lst[..lstIndex])
    ensures lst[lstIndex..next] == src[srcIndex..]
    ensures lst[next..] == old(lst[next..])
  {
    var i := srcIndex;
    next := lstIndex;
    while i < src.Length
      invariant srcIndex <= i <= src.Length && next == lstIndex + (i - srcIndex)
      invariant forall t :: 0 <= t < lst.Length && !(lstIndex <= t < next) ==> lst[t] == old(lst[t])
      invariant forall t :: lstIndex <= t < next ==> lst[t] == src[srcIndex + (t - lstIndex)]
    {
      lst[next] := src[i];
      next := next + 1;
      i := i + 1;
    }
  }

  /** One step of the merge of two suffixes that both have a head: the
      later head comes next, and the merge of what remains follows it. */
  lemma MergeAdvance(left: seq<History>, right: seq<History>, merged: seq<History>, i: nat, j: nat, k: nat)
    requires i < |left| && j < |right| && k <= |merged|
    requires Merge(left[i..], right[j..]) == merged[k..]
    ensures k < |merged|
    ensures left[i].rentalSubmissionDate > right[j].rentalSubmissionDate ==>
              merged[k] == left[i] && Merge(left[i + 1..], right[j..]) == merged[k + 1..]
    ensures left[i].rentalSubmissionDate <= right[j].rentalSubmissionDate ==>
              merged[k] == right[j] && Merge(left[i..], right[j + 1..]) == merged[k + 1..]
  {
    var l, r := left[i..], right[j..];
    assert l[0] == left[i] && l[1..] == left[i + 1..];
    assert r[0] == right[j] && r[1..] == right[j + 1..];
    assert merged[k..][0] == merged[k] && merged[k..][1..] == merged[k + 1..];
  }

  lemma {:induction false} MergePermutes(left: seq<History>, right: seq<History>)
    ensures multiset(Merge(left, right)) == multiset(left) + multiset(right)
    decreases |left| + |right|
  {
    if left != [] && right != [] {
      if left[0].rentalSubmissionDate > right[0].rentalSubmissionDate {
        assert left == [left[0]] + left[1..];
        assert Merge(left, right) == [left[0]] + Merge(left[1..], right);
        MergePermutes(left[1..], right);
      } else {
        assert right == [right[0]] + right[1..];
        assert Merge(left, right) == [right[0]] + Merge(left, right[1..]);
        MergePermutes(left, right[1..]);
      }
    }
  }

  lemma {:induction false} MergeNewestFirst(left: seq<History>, right: seq<History>)
    requires NewestFirst(left) && NewestFirst(right)
    ensures NewestFirst(Merge(left, right))
    ensures Merge(left, right) != [] ==> Merge(left, right)[0] == (if left == [] then right[0]
                                           else if right == [] then left[0]
                                           else if left[0].rentalSubmissionDate > right[0].rentalSubmissionDate then left[0]
                                           else right[0])
    decreases |left| + |right|
  {
    if left != [] && right != [] {
      if left[0].rentalSubmissionDate > right[0].rentalSubmissionDate {
        MergeNewestFirst(left[1..], right);
      } else {
        MergeNewestFirst(left, right[1..]);
      }
    }
  }

  /** The sort orders newest first and rearranges without adding or
      dropping a history. */
  lemma MergeSortedProperties(s: seq<History>)
    ensures NewestFirst(MergeSorted(s))
    ensures multiset(MergeSorted(s)) == multiset(s)
    ensures |MergeSorted(s)| == |s|
  {
    MergeSortedNewestFirst(s);
    MergeSortedPermutes(s);
  }

  lemma {:induction false} MergeSortedNewestFirst(s: seq<History>)
    ensures NewestFirst(MergeSorted(s))
    decreases |s|
  {
    if |s| > 1 {
      MergeSortedNewestFirst(s[..|s| / 2]);
      MergeSortedNewestFirst(s[|s| / 2..]);
      MergeNewestFirst(MergeSorted(s[..|s| / 2]), MergeSorted(s[|s| / 2..]));
    }
  }

  lemma {:induction false} MergeSortedPermutes(s: seq<History>)
    ensures multiset(MergeSorted(s)) == multiset(s)
    decreases |s|
  {
    if |s| > 1 {
      var mid := |s| / 2;
      MultisetSplit(s, mid);
      var sortedL, sortedR := MergeSorted(s[..mid]), MergeSorted(s[mid..]);
      assert MergeSorted(s) == Merge(sortedL, sortedR);
      MergeSortedPermutes(s[..mid]);
      MergeSortedPermutes(s[mid..]);
      MergePermutes(sortedL, sortedR);
    }
  }

  lemma MultisetSplit(s: seq<History>, k: nat)
    requires k <= |s|
    ensures multiset(s) == multiset(s[..k]) + multiset(s[k..])
  {
    assert s == s[..k] + s[k..];
  }

  /** Adjacent order gives order between any two positions. */
  lemma {:induction false} NewestFirstPairwise(s: seq<History>, i: nat, j: nat)
    requires NewestFirst(s) && i <= j < |s|
    ensures s[i].rentalSubmissionDate >= s[j].rentalSubmissionDate
    decreases j - i
  {
    if i < j {
      NewestFirstPairwise(s, i + 1, j);
    }
  }

  /** On equal dates the merge takes the right-hand history first. */
  lemma MergeTieTakesRight(left: seq<History>, right: seq<History>)
    requires left != [] && right != []
    requires left[0].rentalSubmissionDate == right[0].rentalSubmissionDate
    ensures Merge(left, right)[0] == right[0]
  {
  }

  /** The sort is not stable: two histories submitted at the same time come
      out in the opposite of their input order. */
  lemma TiesSwap(first: History, second: History)
    requires first.rentalSubmissionDate == second.rentalSubmissionDate
    ensures MergeSorted([first, second]) == [second, first]
  {
    var s := [first, second];
    assert s[..1] == [first] && s[1..] == [second];
    assert Merge([first], [second]) == [second] + Merge([first], []);
  }

  // ---------------------------------------------------------------------
  // format_phone_number

  /** `format_phone_number`: "(xxx) xxx-xxxx" from the first ten characters;
      IndexError when there are fewer than ten. */
  method FormatPhoneNumber(phonenumber: string) returns (r: Result<string>)
    ensures r.Ok? <==> |phonenumber| >= 10
    ensures r.Err? ==> r.error == IndexError
    ensures r.Ok? ==> |r.value| == 14
    ensures r.Ok? ==> r.value[0] == '(' && r.value[4..6] == ") " && r.value[9] == '-'
    ensures r.Ok? ==> r.value[1..4] == phonenumber[0..3] && r.value[6..9] == phonenumber[3..6]
                      && r.value[10..] == phonenumber[6..10]
  {
    var prettyPhoneNum := "(";
    for idx := 0 to 3
      invariant idx <= |phonenumber|
      invariant prettyPhoneNum == "(" + phonenumber[..idx]
    {
      if idx >= |phonenumber| {
        return Err(IndexError);
      }
      prettyPhoneNum := prettyPhoneNum + [phonenumber[idx]];
    }
    prettyPhoneNum := prettyPhoneNum + ") ";
    for idx := 3 to 6
      invariant idx <= |phonenumber|
      invariant prettyPhoneNum == "(" + phonenumber[..3] + ") " + phonenumber[3..idx]
    {
      if idx >= |phonenumber| {
        return Err(IndexError);
      }
      prettyPhoneNum := prettyPhoneNum + [phonenumber[idx]];
    }
    prettyPhoneNum := prettyPhoneNum + "-";
    for idx := 6 to 10
      invariant idx <= |phonenumber|
      invariant prettyPhoneNum == "(" + phonenumber[..3] + ") " + phonenumber[3..6] + "-" + phonenumber[6..idx]
    {
      if idx >= |phonenumber| {
        return Err(IndexError);
      }
      prettyPhoneNum := prettyPhoneNum + [phonenumber[idx]];
    }
    return Ok(prettyPhoneNum);
  }
}
