/** Which topics have been joined, which handles the client has in its topic map, and which it has asked to close. */
module TopicMap {
  type Topic = string
  type Handle = nat

  datatype Joiner = ByReader(i: nat) | ByPublisher(i: nat)

  datatype Owner = Owner(topic: Topic, who: Joiner)

  /** stored is the client's topic map, live the library's open handles, owners every handle ever joined. */
  datatype Joins = Joins(
    stored: map<Topic, Handle>,
    live: map<Topic, Handle>,
    owners: map<Handle, Owner>,
    asked: set<Handle>)
  {
    /** The library joins a topic only while no open handle for it exists. */
    predicate CanJoin(t: Topic, h: Handle) { t !in live && h !in owners }

    function Join(t: Topic, h: Handle, who: Joiner): Joins {
      this.(live := live[t := h], owners := owners[h := Owner(t, who)])
    }

    function Store(t: Topic, h: Handle): Joins { this.(stored := stored[t := h]) }

    /** Asks every stored handle to close; those in failed stay open, which the client does not notice. */
    function CloseStored(failed: set<Handle>): Joins {
      this.(asked := asked + stored.Values,
            live := map t | t in live && (live[t] !in stored.Values || live[t] in failed) :: live[t])
    }

    /** The open handle of the topic is in the topic map and does not fail to close. */
    predicate ClosesNow(t: Topic, failed: set<Handle>) {
      t in stored && t in live && live[t] == stored[t] && stored[t] !in failed
    }

    predicate Owned(t: Topic, h: Handle) { h in owners && owners[h].topic == t }

    predicate Inv() {
      && (forall t :: t in stored ==> Owned(t, stored[t]))
      && (forall t :: t in live ==> Owned(t, live[t]))
      && (forall h :: h in owners ==> h in asked || (owners[h].topic in live && live[owners[h].topic] == h))
      && asked <= owners.Keys
    }

    /** Joined but not yet put into the topic map. */
    predicate Unstored(t: Topic, h: Handle, who: Joiner) {
      h in owners && owners[h] == Owner(t, who) && h !in asked && (t in stored ==> stored[t] != h)
    }

    /** Stored or asked to close: a Close that goes through the topic map has asked it or will. */
    predicate Reached(t: Topic, h: Handle) {
      Owned(t, h) && (h in asked || (t in stored && stored[t] == h))
    }
  }

  lemma JoinKeeps(j: Joins, t: Topic, h: Handle, who: Joiner)
    requires j.Inv() && j.CanJoin(t, h)
    ensures j.Join(t, h, who).Inv() && j.Join(t, h, who).Unstored(t, h, who)
    ensures forall t', h', who' :: j.Unstored(t', h', who') ==> j.Join(t, h, who).Unstored(t', h', who')
    ensures forall t', h' :: j.Reached(t', h') ==> j.Join(t, h, who).Reached(t', h')
  {
  }

  /** Storing a handle may overwrite another of the topic only when that one has been asked to close. */
  lemma StoreKeeps(j: Joins, t: Topic, h: Handle, who: Joiner)
    requires j.Inv() && j.Unstored(t, h, who)
    ensures j.Store(t, h).Inv() && j.Store(t, h).Reached(t, h)
    ensures forall t', h', who' :: who' != who && j.Unstored(t', h', who') ==> j.Store(t, h).Unstored(t', h', who')
    ensures forall t', h' :: j.Reached(t', h') ==> j.Store(t, h).Reached(t', h')
  {
  }

  lemma CloseStoredKeeps(j: Joins, failed: set<Handle>)
    requires j.Inv()
    ensures j.CloseStored(failed).Inv()
    ensures forall t', h', who' :: j.Unstored(t', h', who') ==> j.CloseStored(failed).Unstored(t', h', who')
    ensures forall t', h' :: j.Reached(t', h') ==>
              h' in j.CloseStored(failed).asked && j.CloseStored(failed).Reached(t', h')
    ensures forall t', h' :: j.ClosesNow(t', failed) && h' !in j.owners ==> j.CloseStored(failed).CanJoin(t', h')
  {
  }
}
