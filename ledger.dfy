/**
 * The client's message list and the pure updaters its socket handlers apply to it
 * (Frontend/src/App.jsx), with the header-grouping rule the message view uses.
 */
module Ledger {
  import opened Wrappers

  /** `type: 'system'` marks the synthetic presence notices; chat entries have no `type`. */
  datatype Kind = Chat | System

  /**
   * A list entry: `_id` (absent on system notices), `username` (absent on system notices),
   * `message`, `timestamp` (in milliseconds) and `type`.
   */
  datatype Message = Message(id: Option<string>, username: Option<string>, text: string, timestamp: int, kind: Kind)

  /** The notice appended on `user_joined` and `user_left`, stamped with the local clock. */
  function SystemNotice(text: string, now: int): Message {
    Message(None, None, text, now, System)
  }

  function JoinedText(name: string): string { name + " joined the chat" }

  function LeftText(name: string): string { name + " left the chat" }

  /** `ms.some(m => m._id === id)`; two absent `_id`s compare equal. */
  predicate HasId(ms: seq<Message>, id: Option<string>) {
    exists i :: 0 <= i < |ms| && ms[i].id == id
  }

  lemma HasIdAppend(ms: seq<Message>, m: Message, id: Option<string>)
    ensures HasId(ms + [m], id) <==> HasId(ms, id) || m.id == id
  {
    var s := ms + [m];
    if HasId(ms, id) {
      var i :| 0 <= i < |ms| && ms[i].id == id;
      assert s[i] == ms[i];
    }
    if m.id == id {
      assert s[|ms|] == m;
    }
    if HasId(s, id) {
      var i :| 0 <= i < |s| && s[i].id == id;
      if i < |ms| { assert s[i] == ms[i]; }
    }
  }

  /** The `new_message` updater: a duplicate `_id` leaves the list as it is, anything else is appended. */
  function Arrive(ms: seq<Message>, m: Message): seq<Message> {
    if HasId(ms, m.id) then ms else ms + [m]
  }

  /** Re-delivery of the same message is harmless. */
  lemma ArriveIdempotent(ms: seq<Message>, m: Message)
    ensures Arrive(Arrive(ms, m), m) == Arrive(ms, m)
  {
    HasIdAppend(ms, m, m.id);
  }

  /** Every assigned `_id` names one entry; entries without an `_id` are not constrained. */
  predicate UniqueIds(ms: seq<Message>) {
    forall i, j :: 0 <= i < j < |ms| && ms[i].id.Some? ==> ms[i].id != ms[j].id
  }

  /** Arrival never creates a second entry with an assigned `_id`. */
  lemma ArriveKeepsUniqueIds(ms: seq<Message>, m: Message)
    requires UniqueIds(ms)
    ensures UniqueIds(Arrive(ms, m))
  {
    if !HasId(ms, m.id) {
      var s := ms + [m];
      forall i, j | 0 <= i < j < |s| && s[i].id.Some? ensures s[i].id != s[j].id {
        if j == |ms| {
          assert s[i] == ms[i];
          assert s[j] == m;
        } else {
          assert s[i] == ms[i] && s[j] == ms[j];
        }
      }
    }
  }

  /** A system notice has no `_id`, so appending one keeps assigned `_id`s unique. */
  lemma NoticeKeepsUniqueIds(ms: seq<Message>, text: string, now: int)
    requires UniqueIds(ms)
    ensures UniqueIds(ms + [SystemNotice(text, now)])
  {
    var s := ms + [SystemNotice(text, now)];
    forall i, j | 0 <= i < j < |s| && s[i].id.Some? ensures s[i].id != s[j].id {
      if j < |ms| { assert s[i] == ms[i] && s[j] == ms[j]; }
    }
  }

  /** The list after a series of `new_message` events, applied in delivery order. */
  function DeliverAll(ms: seq<Message>, evs: seq<Message>): seq<Message>
    decreases |evs|
  {
    if evs == [] then ms else DeliverAll(Arrive(ms, evs[0]), evs[1..])
  }

  /** Messages whose `_id`s differ from each other and from every `_id` already listed. */
  predicate FreshBatch(ms: seq<Message>, evs: seq<Message>) {
    && (forall k :: 0 <= k < |evs| ==> !HasId(ms, evs[k].id))
    && (forall i, j :: 0 <= i < j < |evs| ==> evs[i].id != evs[j].id)
  }

  /** Fresh messages end up after the existing ones, in the order they were delivered. */
  lemma {:induction false} DeliverInOrder(ms: seq<Message>, evs: seq<Message>)
    requires FreshBatch(ms, evs)
    ensures DeliverAll(ms, evs) == ms + evs
    decreases |evs|
  {
    if evs != [] {
      var e := evs[0];
      var ms' := ms + [e];
      assert Arrive(ms, e) == ms';
      forall k | 0 <= k < |evs[1..]| ensures !HasId(ms', evs[1..][k].id) {
        assert evs[1..][k] == evs[k + 1];
        HasIdAppend(ms, e, evs[k + 1].id);
      }
      DeliverInOrder(ms', evs[1..]);
      assert ms' + evs[1..] == ms + evs;
    }
  }

  /** Delivery only ever extends the list. */
  lemma {:induction false} DeliverExtends(ms: seq<Message>, evs: seq<Message>)
    ensures |ms| <= |DeliverAll(ms, evs)| && DeliverAll(ms, evs)[..|ms|] == ms
    decreases |evs|
  {
    if evs != [] {
      var ms' := Arrive(ms, evs[0]);
      DeliverExtends(ms', evs[1..]);
      assert ms'[..|ms|] == ms;
    }
  }

  lemma HasIdInPrefix(ms: seq<Message>, big: seq<Message>, id: Option<string>)
    requires |ms| <= |big| && big[..|ms|] == ms
    requires HasId(ms, id)
    ensures HasId(big, id)
  {
    var i :| 0 <= i < |ms| && ms[i].id == id;
    assert big[i] == ms[i];
  }

  /** After delivery, every delivered `_id` is present. */
  lemma {:induction false} DeliverMakesPresent(ms: seq<Message>, evs: seq<Message>)
    ensures forall k :: 0 <= k < |evs| ==> HasId(DeliverAll(ms, evs), evs[k].id)
    decreases |evs|
  {
    if evs != [] {
      var ms' := Arrive(ms, evs[0]);
      HasIdAppend(ms, evs[0], evs[0].id);
      DeliverMakesPresent(ms', evs[1..]);
      DeliverExtends(ms', evs[1..]);
      HasIdInPrefix(ms', DeliverAll(ms', evs[1..]), evs[0].id);
      forall k | 1 <= k < |evs| ensures HasId(DeliverAll(ms, evs), evs[k].id) {
        assert evs[k] == evs[1..][k - 1];
      }
    }
  }

  /** Messages whose `_id`s are all listed already change nothing. */
  lemma {:induction false} DeliverPresentNoop(ms: seq<Message>, evs: seq<Message>)
    requires forall k :: 0 <= k < |evs| ==> HasId(ms, evs[k].id)
    ensures DeliverAll(ms, evs) == ms
    decreases |evs|
  {
    if evs != [] {
      assert Arrive(ms, evs[0]) == ms;
      forall k | 0 <= k < |evs[1..]| ensures HasId(ms, evs[1..][k].id) {
        assert evs[1..][k] == evs[k + 1];
      }
      DeliverPresentNoop(ms, evs[1..]);
    }
  }

  /** Delivering `a + b` is delivering `a`, then `b`. */
  lemma {:induction false} DeliverSplit(ms: seq<Message>, a: seq<Message>, b: seq<Message>)
    ensures DeliverAll(ms, a + b) == DeliverAll(DeliverAll(ms, a), b)
    decreases |a|
  {
    if a == [] {
      assert a + b == b;
    } else {
      assert (a + b)[0] == a[0];
      assert (a + b)[1..] == a[1..] + b;
      DeliverSplit(Arrive(ms, a[0]), a[1..], b);
    }
  }

  /** A whole batch re-delivered after a reconnect leaves the list as the first delivery left it. */
  lemma ReplayIsHarmless(ms: seq<Message>, evs: seq<Message>)
    ensures DeliverAll(ms, evs + evs) == DeliverAll(ms, evs)
  {
    DeliverSplit(ms, evs, evs);
    DeliverMakesPresent(ms, evs);
    DeliverPresentNoop(DeliverAll(ms, evs), evs);
  }

  /**
   * The `message_deleted` updater, `ms.filter(msg => msg._id !== id)`: every entry whose `_id`
   * equals `id` is dropped (all `_id`-less entries when `id` is absent too), the rest are kept.
   */
  function WithoutId(ms: seq<Message>, id: Option<string>): (r: seq<Message>)
    ensures forall m :: m in r <==> m in ms && m.id != id
    ensures |r| <= |ms|
  {
    if ms == [] then [] else (if ms[0].id == id then [] else [ms[0]]) + WithoutId(ms[1..], id)
  }

  /** Deleting an `_id` nobody has is a no-op, not an error. */
  lemma {:induction false} WithoutIdAbsent(ms: seq<Message>, id: Option<string>)
    requires !HasId(ms, id)
    ensures WithoutId(ms, id) == ms
  {
    if ms != [] {
      assert ms[0].id != id;
      forall i | 0 <= i < |ms[1..]| ensures ms[1..][i].id != id {
        assert ms[1..][i] == ms[i + 1];
      }
      WithoutIdAbsent(ms[1..], id);
    }
  }

  /** Deleting the same `_id` twice is deleting it once. */
  lemma WithoutIdIdempotent(ms: seq<Message>, id: Option<string>)
    ensures WithoutId(WithoutId(ms, id), id) == WithoutId(ms, id)
  {
    var r := WithoutId(ms, id);
    forall i | 0 <= i < |r| ensures r[i].id != id {
      assert r[i] in r;
    }
    WithoutIdAbsent(r, id);
  }

  /** Deletion distributes over concatenation: the entries that stay keep their relative order. */
  lemma {:induction false} WithoutIdConcat(a: seq<Message>, b: seq<Message>, id: Option<string>)
    ensures WithoutId(a + b, id) == WithoutId(a, id) + WithoutId(b, id)
  {
    if a == [] {
      assert a + b == b;
    } else {
      assert (a + b)[0] == a[0];
      assert (a + b)[1..] == a[1..] + b;
      WithoutIdConcat(a[1..], b, id);
    }
  }

  /** Deletions of two `_id`s can be applied in either order. */
  lemma {:induction false} WithoutIdCommutes(ms: seq<Message>, a: Option<string>, b: Option<string>)
    ensures WithoutId(WithoutId(ms, a), b) == WithoutId(WithoutId(ms, b), a)
  {
    if ms != [] {
      WithoutIdConcat([ms[0]], ms[1..], a);
      WithoutIdConcat([ms[0]], ms[1..], b);
      assert ms == [ms[0]] + ms[1..];
      WithoutIdConcat(WithoutId([ms[0]], a), WithoutId(ms[1..], a), b);
      WithoutIdConcat(WithoutId([ms[0]], b), WithoutId(ms[1..], b), a);
      WithoutIdCommutes(ms[1..], a, b);
    }
  }

  /** Deletion never creates a second entry with an assigned `_id`. */
  lemma {:induction false} WithoutIdKeepsUniqueIds(ms: seq<Message>, id: Option<string>)
    requires UniqueIds(ms)
    ensures UniqueIds(WithoutId(ms, id))
  {
    if ms != [] {
      var t := ms[1..];
      assert UniqueIds(t) by {
        forall i, j | 0 <= i < j < |t| && t[i].id.Some? ensures t[i].id != t[j].id {
          assert t[i] == ms[i + 1] && t[j] == ms[j + 1];
        }
      }
      WithoutIdKeepsUniqueIds(t, id);
      var rt := WithoutId(t, id);
      if ms[0].id != id {
        var r := [ms[0]] + rt;
        forall i, j | 0 <= i < j < |r| && r[i].id.Some? ensures r[i].id != r[j].id {
          if i == 0 {
            assert r[j] == rt[j - 1] && rt[j - 1] in t;
            var k :| 0 <= k < |t| && t[k] == rt[j - 1];
            assert ms[k + 1] == t[k];
          } else {
            assert r[i] == rt[i - 1] && r[j] == rt[j - 1];
          }
        }
      }
    }
  }

  /** More than this many milliseconds between two messages of one author starts a new header. */
  const HeaderGapMs: int := 5 * 60 * 1000

  /** `shouldShowHeader(currentMsg, prevMsg)`; `prev` is absent for the first entry. */
  predicate ShouldShowHeader(cur: Message, prev: Option<Message>) {
    if prev.None? || prev.value.kind == System then true
    else if cur.username != prev.value.username then true
    else cur.timestamp - prev.value.timestamp > HeaderGapMs
  }

  /** The header decision the message view makes for entry `i`, against `messages[i - 1]`. */
  predicate ShowsHeaderAt(ms: seq<Message>, i: int)
    requires 0 <= i < |ms|
  {
    ShouldShowHeader(ms[i], if i == 0 then None else Some(ms[i - 1]))
  }

  /**
   * A run of entries shown without a header belongs to the entry that opened it: same author,
   * no system notice inside the run, and each step at most five minutes after the previous one.
   */
  lemma {:induction false} GroupedRunSharesHeader(ms: seq<Message>, h: int, i: int)
    requires 0 <= h <= i < |ms|
    requires forall k :: h < k <= i ==> !ShowsHeaderAt(ms, k)
    ensures ms[i].username == ms[h].username
    ensures ms[i].timestamp - ms[h].timestamp <= (i - h) * HeaderGapMs
    ensures forall k :: h <= k < i ==> ms[k].kind == Chat
    ensures forall k :: h <= k < i ==> ms[k + 1].timestamp - ms[k].timestamp <= HeaderGapMs
  {
    if h < i {
      GroupedRunSharesHeader(ms, h, i - 1);
      assert !ShowsHeaderAt(ms, i);
    }
  }

  /** The first entry, and every entry after a system notice, always shows a header. */
  lemma HeaderOpensEveryRun(ms: seq<Message>, i: int)
    requires 0 <= i < |ms|
    requires i == 0 || ms[i - 1].kind == System
    ensures ShowsHeaderAt(ms, i)
  {
  }
}
