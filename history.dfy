/**
 * One channel's chat history, a Redis list of entries: right-push then trim to the newest
 * 10,000, replay of the newest 50, and recall within the newest 200.
 */
module History {
  import opened ChatTypes

  const MaxHistory: nat := 10000
  const ReplayCount: nat := 50
  const RecallWindow: nat := 200

  /**
   * The newest `n` elements, oldest first (Redis `LRANGE key -n -1`, and what `LTRIM key -n -1`
   * keeps): min(|s|, n) of them.
   */
  function Newest<T>(s: seq<T>, n: nat): (r: seq<T>)
    ensures |r| == if |s| <= n then |s| else n
  {
    if |s| <= n then s else s[|s| - n..]
  }

  /** `Newest` is the suffix of `s` of that length, so it keeps the order of `s`. */
  lemma NewestIsSuffix<T>(s: seq<T>, n: nat)
    ensures Newest(s, n) == s[|s| - |Newest(s, n)|..]
    ensures forall i :: 0 <= i < |Newest(s, n)| ==> Newest(s, n)[i] == s[|s| - |Newest(s, n)| + i]
  {
  }

  /**
   * The list after `saveToHistory`: push `e` at the tail, then keep the newest MaxHistory.
   * The result is within the ceiling and ends with `e`.
   */
  function Appended(h: seq<Entry>, e: Entry): (r: seq<Entry>)
    ensures 1 <= |r| <= MaxHistory && r[|r| - 1] == e
  {
    Newest(h + [e], MaxHistory)
  }

  /**
   * The survivors are a suffix of the old list, in order, followed by the new entry: nothing
   * is dropped while there is room, and at the ceiling exactly the oldest entry is dropped.
   */
  lemma AppendedKeepsNewest(h: seq<Entry>, e: Entry)
    ensures var r := Appended(h, e);
      && (|h| < MaxHistory ==> r == h + [e])
      && (|h| >= MaxHistory ==> |r| == MaxHistory && r == h[|h| - MaxHistory + 1..] + [e])
  {
    var s := h + [e];
    if |h| >= MaxHistory {
      assert s[|s| - MaxHistory..] == h[|h| - MaxHistory + 1..] + [e];
    }
  }

  /** Redis `LREM key 1 v`: removes the first element equal to `v`, scanning from the head. */
  function RemoveFirst(h: seq<Entry>, v: Entry): (r: seq<Entry>)
    ensures |r| == if v in h then |h| - 1 else |h|
  {
    if h == [] then []
    else if h[0] == v then h[1..]
    else [h[0]] + RemoveFirst(h[1..], v)
  }

  /** LREM with count 1 removes one occurrence of `v` when there is one, and nothing else. */
  lemma {:induction false} RemoveFirstMultiset(h: seq<Entry>, v: Entry)
    ensures multiset(RemoveFirst(h, v)) == multiset(h) - multiset{v}
  {
    if h != [] {
      assert h == [h[0]] + h[1..];
      if h[0] != v {
        RemoveFirstMultiset(h[1..], v);
      }
    }
  }

  /** LREM removes the element at the first index holding `v`; all others keep their order. */
  lemma {:induction false} RemoveFirstAt(h: seq<Entry>, v: Entry, i: nat)
    requires i < |h| && h[i] == v
    requires forall j :: 0 <= j < i ==> h[j] != v
    ensures RemoveFirst(h, v) == h[..i] + h[i + 1..]
  {
    if i > 0 {
      var t := h[1..];
      RemoveFirstAt(t, v, i - 1);
      assert RemoveFirst(h, v) == [h[0]] + RemoveFirst(t, v);
      assert t[..i - 1] + t[i..] == h[1..i] + h[i + 1..];
      assert h[..i] == [h[0]] + h[1..i];
    }
  }

  /** LREM of a value that is not in the list leaves the list unchanged. */
  lemma {:induction false} RemoveFirstAbsent(h: seq<Entry>, v: Entry)
    requires v !in h
    ensures RemoveFirst(h, v) == h
  {
    if h != [] {
      RemoveFirstAbsent(h[1..], v);
      assert h[0] != v;
      assert RemoveFirst(h, v) == [h[0]] + RemoveFirst(h[1..], v);
      assert h == [h[0]] + h[1..];
    }
  }

  /** Message ids are unique within the list (the UUIDs the hub assigns never repeat). */
  ghost predicate UniqueIds(h: seq<Entry>)
  {
    forall i, j :: 0 <= i < j < |h| ==> h[i].messageId != h[j].messageId
  }

  /** An id not carried by any entry of the list. */
  ghost predicate FreshId(id: string, h: seq<Entry>)
  {
    forall k :: 0 <= k < |h| ==> h[k].messageId != id
  }

  /** Appending an entry with a fresh id keeps ids unique. */
  lemma AppendedUnique(h: seq<Entry>, e: Entry)
    requires UniqueIds(h) && FreshId(e.messageId, h)
    ensures UniqueIds(Appended(h, e))
  {
    var s := h + [e];
    assert UniqueIds(s) by {
      forall i, j | 0 <= i < j < |s| ensures s[i].messageId != s[j].messageId {
        if j == |h| { assert s[i] == h[i]; }
      }
    }
    var r := Appended(h, e);
    var d := |s| - |r|;
    assert forall k :: 0 <= k < |r| ==> r[k] == s[d + k];
  }

  /** Removing the first equal element keeps ids unique. */
  lemma RemoveFirstUnique(h: seq<Entry>, v: Entry)
    requires UniqueIds(h)
    ensures UniqueIds(RemoveFirst(h, v))
  {
    if v in h {
      var i :| 0 <= i < |h| && h[i] == v && forall j :: 0 <= j < i ==> h[j] != v;
      RemoveFirstAt(h, v, i);
      var r := h[..i] + h[i + 1..];
      assert forall k :: 0 <= k < |r| ==> r[k] == h[if k < i then k else k + 1];
    } else {
      RemoveFirstAbsent(h, v);
    }
  }

  /**
   * The recall scan over the window: the index of the first entry with id `id`, or None
   * when no entry in the window carries it.
   */
  method FindById(window: seq<Entry>, id: string) returns (found: Option<nat>)
    ensures found.Some? ==> found.value < |window| && window[found.value].messageId == id
    ensures found.Some? ==> forall j :: 0 <= j < found.value ==> window[j].messageId != id
    ensures found.None? <==> FreshId(id, window)
  {
    var i := 0;
    while i < |window|
      invariant i <= |window|
      invariant FreshId(id, window[..i])
    {
      if window[i].messageId == id {
        return Some(i);
      }
      i := i + 1;
    }
    assert window[..i] == window;
    return None;
  }

  /**
   * Who may recall a stored entry: its author, or an ADMIN when the author was not an ADMIN.
   * An ADMIN's entry, and any entry recalled by a non-ADMIN, is recallable by its author alone.
   */
  predicate MayRecall(requester: User, entry: Entry): (ok: bool)
    ensures requester.id == entry.userId ==> ok
    ensures IsAdmin(entry.role) ==> (ok <==> requester.id == entry.userId)
    ensures !IsAdmin(requester.role) ==> (ok <==> requester.id == entry.userId)
    ensures IsAdmin(requester.role) && !IsAdmin(entry.role) ==> ok
  {
    requester.id == entry.userId || (IsAdmin(requester.role) && !IsAdmin(entry.role))
  }

  /**
   * In a list with unique ids, recalling the window entry at index `i` of the newest
   * RecallWindow removes exactly that entry from the whole list and nothing else.
   */
  lemma RecallRemovesThatEntry(h: seq<Entry>, i: nat)
    requires UniqueIds(h)
    requires i < |Newest(h, RecallWindow)|
    ensures var w := Newest(h, RecallWindow); var k := |h| - |w| + i;
      && k < |h| && h[k] == w[i]
      && RemoveFirst(h, w[i]) == h[..k] + h[k + 1..]
  {
    var w := Newest(h, RecallWindow);
    var k := |h| - |w| + i;
    assert h[k] == w[i];
    forall j | 0 <= j < k ensures h[j] != w[i] {
      assert h[j].messageId != h[k].messageId;
    }
    RemoveFirstAt(h, w[i], k);
  }
}
