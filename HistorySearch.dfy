/** The history search box (App.tsx and components/HistoryPage.tsx): keep the
    items whose lowercased topic or article includes the lowercased query,
    in their original order. */
module HistorySearch {
  import opened Wrappers
  import opened Text
  import opened Types

  /** The filter's predicate for one item. */
  predicate Matches(item: HistoryItem, query: string) {
    Contains(Lower(item.topic), Lower(query)) || Contains(Lower(item.article), Lower(query))
  }

  /** `history.filter(item => Matches(item, query))`. */
  function Search(history: seq<HistoryItem>, query: string): (r: seq<HistoryItem>)
    ensures |r| <= |history|
    ensures forall x :: x in r ==> x in history && Matches(x, query)
  {
    if history == [] then []
    else if Matches(history[0], query) then [history[0]] + Search(history[1..], query)
    else Search(history[1..], query)
  }

  /** `a` is `b` with some items left out, the others kept in order. */
  predicate IsSubsequence(a: seq<HistoryItem>, b: seq<HistoryItem>)
    decreases |b|, |a|
  {
    if a == [] then true
    else if b == [] then false
    else if a[0] == b[0] then IsSubsequence(a[1..], b[1..])
    else IsSubsequence(a, b[1..])
  }

  /** The search result keeps the history's order: it is a subsequence. */
  lemma {:induction false} SearchIsSubsequence(history: seq<HistoryItem>, query: string)
    ensures IsSubsequence(Search(history, query), history)
  {
    if history != [] {
      SearchIsSubsequence(history[1..], query);
      if !Matches(history[0], query) {
        SubsequenceSkipsHead(Search(history[1..], query), history);
      }
    }
  }

  lemma {:induction false} SubsequenceSkipsHead(a: seq<HistoryItem>, b: seq<HistoryItem>)
    requires b != [] && IsSubsequence(a, b[1..])
    ensures IsSubsequence(a, b)
    decreases |b|, |a|
  {
    if a != [] && a[0] == b[0] {
      SubsequenceDropHead(a, b[1..]);
    }
  }

  lemma {:induction false} SubsequenceDropHead(a: seq<HistoryItem>, b: seq<HistoryItem>)
    requires a != [] && IsSubsequence(a, b)
    ensures IsSubsequence(a[1..], b)
    decreases |b|, |a|
  {
    assert b != [];
    if a[0] == b[0] {
      SubsequenceSkipsHead(a[1..], b);
    } else {
      SubsequenceDropHead(a, b[1..]);
      SubsequenceSkipsHead(a[1..], b);
    }
  }

  /** The filter works item by item: searching a history made of two parts
      gives the results of the two parts, one after the other. */
  lemma {:induction false} SearchAppend(h1: seq<HistoryItem>, h2: seq<HistoryItem>, query: string)
    ensures Search(h1 + h2, query) == Search(h1, query) + Search(h2, query)
  {
    if h1 == [] {
      assert h1 + h2 == h2;
    } else {
      assert (h1 + h2)[0] == h1[0];
      assert (h1 + h2)[1..] == h1[1..] + h2;
      SearchAppend(h1[1..], h2, query);
    }
  }

  /** A single item is kept exactly when it matches. With `SearchAppend`,
      this fixes the result of every search, repeated items included. */
  lemma SearchOfOne(item: HistoryItem, query: string)
    ensures Search([item], query) == if Matches(item, query) then [item] else []
  {
  }

  /** Every occurrence of a matching item is kept, and no occurrence of
      one that does not match: the result holds each item as often as the
      history does when it matches, and not at all otherwise. */
  lemma {:induction false} SearchCounts(history: seq<HistoryItem>, query: string, x: HistoryItem)
    ensures multiset(Search(history, query))[x] == if Matches(x, query) then multiset(history)[x] else 0
  {
    if history != [] {
      SearchCounts(history[1..], query, x);
      assert history == [history[0]] + history[1..];
    }
  }

  /** Nothing that matches is dropped: an item is in the result exactly
      when it is in the history and matches. */
  lemma {:induction false} SearchMembership(history: seq<HistoryItem>, query: string, x: HistoryItem)
    ensures x in Search(history, query) <==> x in history && Matches(x, query)
  {
    if history != [] {
      SearchMembership(history[1..], query, x);
      assert history == [history[0]] + history[1..];
    }
  }

  /** Every item matches the empty query, so it returns the whole history. */
  lemma {:induction false} SearchEmptyQuery(history: seq<HistoryItem>)
    ensures Search(history, []) == history
  {
    if history != [] {
      ContainsEmpty(Lower(history[0].topic));
      SearchEmptyQuery(history[1..]);
    }
  }

  /** Queries that lowercase to the same string give the same result. */
  lemma {:induction false} SearchIgnoresCase(history: seq<HistoryItem>, q1: string, q2: string)
    requires Lower(q1) == Lower(q2)
    ensures Search(history, q1) == Search(history, q2)
  {
    if history != [] {
      SearchIgnoresCase(history[1..], q1, q2);
    }
  }

  /** When every item matches, searching changes nothing. */
  lemma {:induction false} SearchKeepsAllMatching(history: seq<HistoryItem>, query: string)
    requires forall x :: x in history ==> Matches(x, query)
    ensures Search(history, query) == history
  {
    if history != [] {
      assert history[0] in history;
      forall x | x in history[1..] ensures Matches(x, query) {
        assert x in history;
      }
      SearchKeepsAllMatching(history[1..], query);
    }
  }

  /** Searching the result again with the same query gives the same list. */
  lemma SearchIdempotent(history: seq<HistoryItem>, query: string)
    ensures Search(Search(history, query), query) == Search(history, query)
  {
    SearchKeepsAllMatching(Search(history, query), query);
  }

  /** The result is empty exactly when no item of the history matches. */
  lemma SearchEmptyIffNoneMatch(history: seq<HistoryItem>, query: string)
    ensures Search(history, query) == [] <==> forall x :: x in history ==> !Matches(x, query)
  {
    var items := Search(history, query);
    if items != [] {
      assert items[0] in items;
    } else {
      forall x | x in history ensures !Matches(x, query) {
        SearchMembership(history, query, x);
      }
    }
  }

  /** What the history page shows for a history and a query. */
  datatype HistoryPageView = HistoryPageView(
    items: seq<HistoryItem>,
    showNoResults: bool,
    showClearButton: bool)

  /** components/HistoryPage.tsx: the filtered cards, the "No articles found"
      message when the filtered list is empty, and the clear button only
      when the history is not empty. The message shows exactly when no
      history item matches the query. */
  function RenderHistoryPage(history: seq<HistoryItem>, query: string): (v: HistoryPageView)
    ensures v.showNoResults <==> forall x :: x in history ==> !Matches(x, query)
    ensures v.showClearButton <==> |history| > 0
    ensures v.items == Search(history, query)
    ensures v.showNoResults <==> v.items == []
  {
    var items := Search(history, query);
    SearchEmptyIffNoneMatch(history, query);
    HistoryPageView(items, |items| == 0, |history| > 0)
  }

  /** The App component renders its history section, with its own search
      and clear button, only when the history is not empty; the section's
      "No articles found" message shows when nothing matches. */
  function RenderAppHistorySection(history: seq<HistoryItem>, query: string): (v: Option<HistoryPageView>)
    ensures v.Some? <==> history != []
    ensures v.Some? ==> v.value.showClearButton
    ensures v.Some? ==> v.value.items == Search(history, query)
    ensures v.Some? ==> (v.value.showNoResults <==> forall x :: x in history ==> !Matches(x, query))
  {
    if history == [] then None else Some(RenderHistoryPage(history, query))
  }
}
