/** The history list kept by the App component (App.tsx): newest first,
    capped at 20 on insertion, emptied by "Clear All History", restored from
    and written back to one browser-storage slot. */
module HistoryStore {
  import opened Wrappers
  import opened Types

  /** The cap applied by `slice(0, 20)` on insertion and on persistence. */
  const Capacity: nat := 20

  function Min(a: int, b: int): int { if a <= b then a else b }

  /** `h.slice(0, 20)`: the first `Capacity` items, or all of them. */
  function Truncate<T>(h: seq<T>): (r: seq<T>)
    ensures |r| <= Capacity && r <= h
    ensures |h| <= Capacity ==> r == h
    ensures |h| > Capacity ==> |r| == Capacity
  {
    if |h| <= Capacity then h else h[..Capacity]
  }

  /** Truncating a list that was already truncated changes nothing, so the
      second cap at persistence time never removes an item that insertion
      kept. */
  lemma TruncateIdempotent<T>(h: seq<T>)
    ensures Truncate(Truncate(h)) == Truncate(h)
  {
  }

  /** `[item, ...prev].slice(0, 20)`: the new item goes to the front, the
      previous items follow in their order, and when the list was full the
      previous last item, and only it, is dropped. */
  function Prepend(h: seq<HistoryItem>, item: HistoryItem): (r: seq<HistoryItem>)
    ensures |r| == Min(|h| + 1, Capacity)
    ensures r[0] == item
    ensures r[1..] == h[..|r| - 1]
    ensures |h| < Capacity ==> r == [item] + h
    ensures |h| == Capacity ==> r == [item] + h[..Capacity - 1]
  {
    Truncate([item] + h)
  }

  /** The list after inserting `items` one after the other, first item
      first. */
  function InsertAll(h: seq<HistoryItem>, items: seq<HistoryItem>): seq<HistoryItem>
    decreases |items|
  {
    if items == [] then h else InsertAll(Prepend(h, items[0]), items[1..])
  }

  function Reverse<T>(s: seq<T>): (r: seq<T>)
    ensures |r| == |s|
    ensures forall k :: 0 <= k < |s| ==> r[k] == s[|s| - 1 - k]
  {
    if s == [] then [] else Reverse(s[1..]) + [s[0]]
  }

  /** Capping the tail before or after adding items in front gives the same
      capped list. */
  lemma TruncateAppendTruncate<T>(a: seq<T>, b: seq<T>)
    ensures Truncate(a + Truncate(b)) == Truncate(a + b)
  {
    if |a + b| > Capacity {
      assert (a + Truncate(b))[..Capacity] == (a + b)[..Capacity];
    }
  }

  /** At least one insertion leaves exactly the newest `Capacity` items of
      `items + h`, newest first. */
  lemma {:induction false} InsertAllIsNewestFirst(h: seq<HistoryItem>, items: seq<HistoryItem>)
    requires items != []
    ensures InsertAll(h, items) == Truncate(Reverse(items) + h)
    decreases |items|
  {
    var first := items[0];
    var rest := items[1..];
    var next := Prepend(h, first);
    assert InsertAll(h, items) == InsertAll(next, rest);
    assert next == Truncate([first] + h);
    if rest == [] {
      assert Reverse(items) == [first];
    } else {
      InsertAllIsNewestFirst(next, rest);
      assert Reverse(items) == Reverse(rest) + [first];
      TruncateAppendTruncate(Reverse(rest), [first] + h);
      assert Reverse(rest) + ([first] + h) == Reverse(items) + h;
    }
  }

  /** N insertions into an empty history leave min(N, 20) items: the last
      inserted at position 0, each earlier one a position further down, and
      the first inserted gone once more than 20 were inserted (when it was
      not inserted again later). */
  lemma InsertManyFromEmpty(items: seq<HistoryItem>)
    ensures |InsertAll([], items)| == Min(|items|, Capacity)
    ensures forall k :: 0 <= k < |InsertAll([], items)| ==>
      InsertAll([], items)[k] == items[|items| - 1 - k]
    ensures |items| > Capacity && items[0] !in items[1..] ==> items[0] !in InsertAll([], items)
  {
    if items != [] {
      InsertAllIsNewestFirst([], items);
      assert Reverse(items) + [] == Reverse(items);
      var r := InsertAll([], items);
      if |items| > Capacity && items[0] !in items[1..] {
        forall k | 0 <= k < |r| ensures r[k] != items[0] {
          assert items[|items| - 1 - k] in items[1..];
        }
      }
    }
  }

  /** What `JSON.parse` gives for the slot's text: an array, whose elements
      are taken to be history items, or any other JSON value (`null`, a
      number, a string, a boolean or an object). */
  datatype Json = JsonArray(items: seq<HistoryItem>) | JsonOther

  /** The mount effect as written: when the slot is present and non-empty
      and parses, `history` becomes whatever the parse gave, array or not;
      otherwise it stays `[]`. `parsed` is `None` when `JSON.parse` throws. */
  function RestoredAsWritten(saved: Option<string>, parsed: Option<Json>): (v: Json)
    ensures saved == None || saved == Some([]) || parsed == None ==> v == JsonArray([])
    ensures saved.Some? && saved.value != [] && parsed.Some? ==> v == parsed.value
  {
    if saved.Some? && saved.value != [] && parsed.Some? then parsed.value else JsonArray([])
  }

  /** `history.filter`, run on every render, exists only when `history` is
      an array. */
  predicate ArrayMethodsDefined(v: Json) {
    v.JsonArray?
  }

  /** A slot whose text parses to something other than an array, such as
      `null` or `{}`, is restored into a value on which every render
      throws. */
  lemma RestoredNonArrayBreaksRendering(saved: string, parsed: Json)
    requires saved != [] && parsed == JsonOther
    ensures !ArrayMethodsDefined(RestoredAsWritten(Some(saved), Some(parsed)))
  {
  }

  /** The history restored on start-up: the parsed array when the slot is
      present, non-empty and parses to an array; the empty list otherwise,
      without an error. A restored list is not capped. */
  function Restore(saved: Option<string>, parsed: Option<Json>): (r: seq<HistoryItem>)
    ensures saved == None || saved == Some([]) || parsed == None ==> r == []
    ensures saved.Some? && saved.value != [] && parsed.Some? && parsed.value.JsonArray? ==> r == parsed.value.items
    ensures parsed == Some(JsonOther) ==> r == []
  {
    if saved.Some? && saved.value != [] && parsed.Some? && parsed.value.JsonArray? then parsed.value.items else []
  }

  /** The restore above keeps the source's behaviour wherever that leaves
      an array in `history`, and gives the empty list where the source
      leaves something else. */
  lemma RestoreAgreesOnArrays(saved: Option<string>, parsed: Option<Json>)
    ensures ArrayMethodsDefined(RestoredAsWritten(saved, parsed)) ==>
      Restore(saved, parsed) == RestoredAsWritten(saved, parsed).items
    ensures !ArrayMethodsDefined(RestoredAsWritten(saved, parsed)) ==> Restore(saved, parsed) == []
  {
  }

  /** The App component's `history` state together with the storage slot
      `news_generator_history` it is written to after every change. */
  class Store {
    var history: seq<HistoryItem>
    /** What the slot holds after the last write, as a list of items. */
    ghost var slot: seq<HistoryItem>

    /** The slot always holds the first `Capacity` items of the history. */
    ghost predicate Valid()
      reads this
    {
      slot == Truncate(history)
    }

    /** Mount: the history starts empty, is restored from the slot, and the
        restored list is written back capped. */
    constructor Open(saved: Option<string>, parsed: Option<Json>)
      ensures Valid()
      ensures history == Restore(saved, parsed)
      ensures slot == Truncate(Restore(saved, parsed))
    {
      history := [];
      slot := [];
      new;
      if saved.Some? && saved.value != [] {
        match parsed
        case Some(JsonArray(items)) =>
          history := items;
        case _ =>
      }
      Persist();
    }

    /** The save effect: `history.slice(0, 20)` replaces the slot. */
    method Persist()
      modifies this`slot
      ensures Valid()
    {
      slot := Truncate(history);
    }

    /** A completed generation is recorded in front of the history. */
    method Insert(item: HistoryItem)
      requires Valid()
      modifies this
      ensures Valid()
      ensures history == Prepend(old(history), item)
      ensures slot == history
    {
      history := [item] + history;
      if |history| > Capacity {
        history := history[..Capacity];
      }
      Persist();
    }

    /** The history becomes empty, and so does the slot. */
    method Clear()
      requires Valid()
      modifies this
      ensures Valid()
      ensures history == [] && slot == []
    {
      history := [];
      Persist();
    }

    /** "Clear All History": clears only when the confirmation dialog
        answered yes; otherwise nothing changes. */
    method ClearIfConfirmed(confirmed: bool)
      requires Valid()
      modifies this
      ensures Valid()
      ensures history == (if confirmed then [] else old(history))
      ensures slot == (if confirmed then [] else old(slot))
    {
      if confirmed {
        Clear();
      }
    }
  }
}
