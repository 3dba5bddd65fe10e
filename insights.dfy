/**
 * The "Top Languages" panel of src/components/InsightsSection.tsx: the
 * language counter sorted by count, largest first, cut to five rows, each
 * shown with its share of all counted repositories as a whole percentage.
 */
module Insights {
  import opened Wrappers
  import opened Counters
  import opened Sorting

  /** How many languages the panel lists. */
  const ShownLanguages: nat := 5

  /** The key of the comparator `(a, b) => b[1] - a[1]`: ascending by it is descending by count. */
  function ByCountDescending(e: Entry): int
  {
    -(e.count as int)
  }

  /**
   * Lines 28-30: `Object.entries(languages)`, sorted by the (stable)
   * comparator `b[1] - a[1]`, then `slice(0, 5)`.
   */
  function TopLanguages(languages: seq<Entry>): (top: seq<Entry>)
    ensures |top| == Min(ShownLanguages, |languages|)
    ensures forall i, j :: 0 <= i < j < |top| ==> top[i].count >= top[j].count
    ensures multiset(top) <= multiset(languages)
  {
    var sorted := SortBy(languages, ByCountDescending);
    var k := Min(ShownLanguages, |languages|);
    ListedLanguagesAreOrdered(sorted, k);
    sorted[..k]
  }

  /** What a sequence holds beyond its first `k` elements lies in its remainder. */
  lemma BeyondPrefix(s: seq<Entry>, k: nat, x: Entry) returns (r: nat)
    requires k <= |s| && x in multiset(s) - multiset(s[..k])
    ensures k <= r < |s| && s[r] == x
  {
    assert s == s[..k] + s[k..];
    assert multiset(s) == multiset(s[..k]) + multiset(s[k..]);
    assert x in s[k..];
    var i :| 0 <= i < |s[k..]| && s[k..][i] == x;
    r := k + i;
  }

  /** A language that is not listed sits at position five or later of the sorted entries. */
  lemma HiddenLanguageIsSortedLate(languages: seq<Entry>, hidden: Entry) returns (j: nat)
    requires hidden in multiset(languages) - multiset(TopLanguages(languages))
    ensures ShownLanguages <= j < |languages| && SortBy(languages, ByCountDescending)[j] == hidden
  {
    var sorted := SortBy(languages, ByCountDescending);
    var k := Min(ShownLanguages, |languages|);
    assert TopLanguages(languages) == sorted[..k];
    j := BeyondPrefix(sorted, k, hidden);
  }

  /** The first `k` entries of the sorted object are ordered by count and come from the object. */
  lemma ListedLanguagesAreOrdered(sorted: seq<Entry>, k: nat)
    requires SortedBy(sorted, ByCountDescending) && k <= |sorted|
    ensures forall i, j :: 0 <= i < j < k ==> sorted[i].count >= sorted[j].count
    ensures multiset(sorted[..k]) <= multiset(sorted)
  {
    assert sorted == sorted[..k] + sorted[k..];
    forall i, j | 0 <= i < j < k
      ensures sorted[i].count >= sorted[j].count
    {
      assert ByCountDescending(sorted[i]) <= ByCountDescending(sorted[j]);
    }
  }

  /**
   * No language left out of the panel has a larger count than one listed:
   * the panel shows five largest counts, and all languages when there are
   * at most five.
   */
  lemma HiddenLanguagesAreNotLarger(languages: seq<Entry>, shown: Entry, hidden: Entry)
    requires shown in TopLanguages(languages)
    requires hidden in multiset(languages) - multiset(TopLanguages(languages))
    ensures hidden.count <= shown.count
    ensures |languages| > ShownLanguages
  {
    var sorted := SortBy(languages, ByCountDescending);
    var j := HiddenLanguageIsSortedLate(languages, hidden);
    var i :| 0 <= i < ShownLanguages && sorted[i] == shown;
    assert ByCountDescending(sorted[i]) <= ByCountDescending(sorted[j]);
  }

  /**
   * Line 54: `Math.round((bytes / totalBytes) * 100)` when the total is
   * positive, else 0.  `Math.round` rounds half up, so the result is the
   * integer nearest to `100 * bytes / totalBytes`, ties going up.
   */
  function Percentage(bytes: nat, totalBytes: nat): nat
  {
    if totalBytes > 0 then (200 * bytes + totalBytes) / (2 * totalBytes) else 0
  }

  /**
   * The percentage is the integer nearest to `100 * bytes / totalBytes`,
   * a tie going to the larger one, and 0 when nothing was counted.
   */
  lemma PercentageRounds(bytes: nat, totalBytes: nat)
    ensures totalBytes > 0 ==>
      2 * totalBytes * Percentage(bytes, totalBytes) <= 200 * bytes + totalBytes < 2 * totalBytes * (Percentage(bytes, totalBytes) + 1)
    ensures totalBytes == 0 ==> Percentage(bytes, totalBytes) == 0
  {
    if totalBytes > 0 {
      DivisionBounds(200 * bytes + totalBytes, 2 * totalBytes);
    }
  }

  lemma DivisionBounds(n: nat, d: nat)
    requires d > 0
    ensures d * (n / d) <= n < d * (n / d + 1)
  {
  }

  /** Cancelling a positive factor in a strict bound. */
  lemma ScaleBelow(t: nat, p: nat, c: nat)
    requires t > 0 && t * p < t * (c + 1)
    ensures p <= c
  {
  }

  /** Only one integer `q` satisfies `d * q <= n < d * (q + 1)`. */
  lemma QuotientIsUnique(d: nat, n: nat, q: nat, q': nat)
    requires d > 0
    requires d * q <= n < d * (q + 1)
    requires d * q' <= n < d * (q' + 1)
    ensures q == q'
  {
    ScaleBelow(d, q, q');
    ScaleBelow(d, q', q);
  }

  /** A language holding every counted repository is shown at 100%, one holding none at 0%. */
  lemma PercentageExtremes(bytes: nat, totalBytes: nat)
    ensures bytes == 0 ==> Percentage(bytes, totalBytes) == 0
    ensures bytes == totalBytes > 0 ==> Percentage(bytes, totalBytes) == 100
  {
    var p := Percentage(bytes, totalBytes);
    var d := 2 * totalBytes;
    PercentageRounds(bytes, totalBytes);
    if totalBytes > 0 && bytes == 0 {
      QuotientIsUnique(d, totalBytes, p, 0);
    } else if totalBytes > 0 && bytes == totalBytes {
      assert d * 100 <= 201 * totalBytes < d * 101;
      QuotientIsUnique(d, 201 * totalBytes, p, 100);
    }
  }

  /** A count no larger than the total is shown at no more than 100%. */
  lemma PercentageAtMostHundred(bytes: nat, totalBytes: nat)
    requires bytes <= totalBytes
    ensures Percentage(bytes, totalBytes) <= 100
  {
    var p := Percentage(bytes, totalBytes);
    PercentageRounds(bytes, totalBytes);
    if totalBytes > 0 {
      assert 2 * totalBytes * p < 2 * totalBytes * 101;
      ScaleBelow(2 * totalBytes, p, 100);
    }
  }

  /** A larger count is never shown with a smaller percentage. */
  lemma PercentageIsMonotone(bytes: nat, bytes': nat, totalBytes: nat)
    requires bytes <= bytes'
    ensures Percentage(bytes, totalBytes) <= Percentage(bytes', totalBytes)
  {
    var p, p' := Percentage(bytes, totalBytes), Percentage(bytes', totalBytes);
    PercentageRounds(bytes, totalBytes);
    PercentageRounds(bytes', totalBytes);
    if totalBytes > 0 {
      assert 2 * totalBytes * p < 2 * totalBytes * (p' + 1);
      ScaleBelow(2 * totalBytes, p, p');
    }
  }

  /** The percentages of the rows shown, in order. */
  function ShownPercentages(languages: seq<Entry>): (ps: seq<nat>)
    ensures |ps| == |TopLanguages(languages)|
    ensures forall i :: 0 <= i < |ps| ==> ps[i] == Percentage(TopLanguages(languages)[i].count, Total(languages))
  {
    var top := TopLanguages(languages);
    seq(|top|, i requires 0 <= i < |top| => Percentage(top[i].count, Total(languages)))
  }

  /**
   * Every listed row is shown at 0 to 100%, so its percentage is a valid
   * bar width (line 69): a listed count never exceeds the total.
   */
  lemma ShownPercentagesAtMostHundred(languages: seq<Entry>)
    ensures forall i :: 0 <= i < |ShownPercentages(languages)| ==> ShownPercentages(languages)[i] <= 100
  {
    var top := TopLanguages(languages);
    forall i | 0 <= i < |top|
      ensures Percentage(top[i].count, Total(languages)) <= 100
    {
      assert top[i] in multiset(top);
      EntryAtMostTotal(languages, top[i]);
      PercentageAtMostHundred(top[i].count, Total(languages));
    }
  }

  function Sum(ps: seq<nat>): nat
  {
    if ps == [] then 0 else ps[0] + Sum(ps[1..])
  }

  /** Inserting an element whose key is not below any other key appends it. */
  lemma {:induction false} InsertLargest(s: seq<Entry>, x: Entry)
    requires forall i :: 0 <= i < |s| ==> ByCountDescending(s[i]) <= ByCountDescending(x)
    ensures Insert(s, x, ByCountDescending) == s + [x]
  {
    if s != [] {
      InsertLargest(s[1..], x);
      assert s == [s[0]] + s[1..];
    }
  }

  /**
   * An object already enumerated from the largest count down is listed in
   * its own order.
   */
  lemma {:induction false} SortedObjectKeepsItsOrder(languages: seq<Entry>)
    requires forall i, j :: 0 <= i < j < |languages| ==> languages[i].count >= languages[j].count
    ensures SortBy(languages, ByCountDescending) == languages
  {
    if languages != [] {
      var prefix, last := languages[..|languages| - 1], languages[|languages| - 1];
      assert languages == prefix + [last];
      SortedObjectKeepsItsOrder(prefix);
      InsertLargest(prefix, last);
    }
  }


  /** At most five languages, already enumerated from the largest count down, are all listed as they are. */
  lemma FewSortedLanguagesAreListedAsTheyAre(languages: seq<Entry>)
    requires |languages| <= ShownLanguages
    requires forall i, j :: 0 <= i < j < |languages| ==> languages[i].count >= languages[j].count
    ensures TopLanguages(languages) == languages
  {
    SortedObjectKeepsItsOrder(languages);
    var sorted := SortBy(languages, ByCountDescending);
    assert sorted[..|languages|] == sorted;
  }

  lemma SumOfFive(ps: seq<nat>)
    requires |ps| == 5
    ensures Sum(ps) == ps[0] + ps[1] + ps[2] + ps[3] + ps[4]
  {
    assert Sum(ps[4..]) == ps[4] by {
      assert ps[4..][1..] == [];
    }
    assert Sum(ps[3..]) == ps[3] + Sum(ps[4..]) by {
      assert ps[3..][1..] == ps[4..];
    }
    assert Sum(ps[2..]) == ps[2] + Sum(ps[3..]) by {
      assert ps[2..][1..] == ps[3..];
    }
    assert Sum(ps[1..]) == ps[1] + Sum(ps[2..]) by {
      assert ps[1..][1..] == ps[2..];
    }
  }

  lemma TotalOfFive(es: seq<Entry>)
    requires |es| == 5
    ensures Total(es) == es[0].count + es[1].count + es[2].count + es[3].count + es[4].count
  {
    assert Total(es[4..]) == es[4].count by {
      assert es[4..][1..] == [];
    }
    assert Total(es[3..]) == es[3].count + Total(es[4..]) by {
      assert es[3..][1..] == es[4..];
    }
    assert Total(es[2..]) == es[2].count + Total(es[3..]) by {
      assert es[2..][1..] == es[3..];
    }
    assert Total(es[1..]) == es[1].count + Total(es[2..]) by {
      assert es[1..][1..] == es[2..];
    }
  }

  /** When every language is listed, row `i` shows the percentage of entry `i`. */
  lemma ListedRows(languages: seq<Entry>)
    requires |languages| <= ShownLanguages
    requires forall i, j :: 0 <= i < j < |languages| ==> languages[i].count >= languages[j].count
    ensures |ShownPercentages(languages)| == |languages|
    ensures forall i :: 0 <= i < |languages| ==>
      ShownPercentages(languages)[i] == Percentage(languages[i].count, Total(languages))
  {
    FewSortedLanguagesAreListedAsTheyAre(languages);
  }

  /**
   * Each row rounds on its own, so the listed percentages need not add up
   * to 100: five languages used by 4, 1, 1, 1 and 1 repositories are shown
   * as 50%, 13%, 13%, 13% and 13%.
   */
  lemma ShownPercentagesCanExceedHundred(languages: seq<Entry>)
    requires |languages| == 5 && languages[0].count == 4
    requires forall i :: 1 <= i < 5 ==> languages[i].count == 1
    ensures Sum(ShownPercentages(languages)) == 102
  {
    var ps := ShownPercentages(languages);
    assert Total(languages) == 8 by {
      TotalOfFive(languages);
    }
    ListedRows(languages);
    assert Percentage(4, 8) == 50 && Percentage(1, 8) == 13;
    assert ps[0] == 50 && ps[1] == 13 && ps[2] == 13 && ps[3] == 13 && ps[4] == 13;
    SumOfFive(ps);
  }
}
