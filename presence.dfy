/** The client's typing list and the `user_typing` updaters (Frontend/src/App.jsx). */
module Presence {
  import opened Seqs

  /** The `user_typing` updater for `isTyping` true: `[...new Set([...prev, name])]`. */
  function WithTypist(prev: seq<string>, name: string): (r: seq<string>)
    ensures NoDup(r)
    ensures forall u :: u in r <==> u in prev || u == name
  {
    Distinct(prev + [name])
  }

  /**
   * On a list without duplicates (the only kind the client builds) adding a typist keeps the
   * existing order and appends the name only when it is not listed yet.
   */
  lemma WithTypistAppendsOnce(prev: seq<string>, name: string)
    requires NoDup(prev)
    ensures WithTypist(prev, name) == if name in prev then prev else prev + [name]
  {
    var s := prev + [name];
    assert s[..|s| - 1] == prev;
    DistinctOfNoDup(prev);
    if name !in prev {
      NoDupSnoc(prev, name);
    }
  }

  /** Announcing the same typist twice is announcing them once. */
  lemma WithTypistIdempotent(prev: seq<string>, name: string)
    ensures WithTypist(WithTypist(prev, name), name) == WithTypist(prev, name)
  {
    WithTypistAppendsOnce(WithTypist(prev, name), name);
  }

  /** A typist announced and then withdrawn leaves a list that did not hold them unchanged. */
  lemma TypingOnThenOff(prev: seq<string>, name: string)
    requires NoDup(prev) && name !in prev
    ensures Without(WithTypist(prev, name), name) == prev
  {
    WithTypistAppendsOnce(prev, name);
    WithoutConcat(prev, [name], name);
    WithoutAbsent(prev, name);
  }
}
