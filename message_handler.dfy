/**
 * The `message` event handler: welcome a first-time asker once, in a thread
 * under their root message, and remember them in the Interaction Store.
 */
module MessageHandler {
  import opened Platform
  import opened InteractionStore

  /** The early-return filters: configured channel, author and text present, plain message, not a thread reply. */
  predicate Qualifies(ev: MessageEvent, configured: Option<string>) {
    && configured == Some(ev.channel)
    && Truthy(ev.user) && Truthy(ev.text) && ev.kind == "message"
    && !Truthy(ev.threadTs)
  }

  /** The event passes the filters and its author is not in the store: the case that inserts. */
  predicate NewAuthor(ids: seq<string>, configured: Option<string>, ev: MessageEvent) {
    Qualifies(ev, configured) && ev.user.value !in ids
  }

  function WelcomePost(ev: MessageEvent): Post {
    Post(ev.channel, WelcomeMessage, ev.ts)
  }

  function FallbackPost(ev: MessageEvent): Post {
    Post(ev.channel, FallbackMessage, ev.ts)
  }

  /** The reply of the error path, posted only when the event is not a thread reply. */
  function Fallback(ev: MessageEvent): seq<Post> {
    if !Truthy(ev.threadTs) then [FallbackPost(ev)] else []
  }

  /**
   * A message event together with how the calls it triggers turn out:
   * how writing the storage file goes, and whether posting the welcome
   * throws.
   */
  datatype Delivery = Delivery(ev: MessageEvent, save: WriteResult, postFails: bool)

  /** The store, the file and the posts issued, after handling some events. */
  datatype Outcome = Outcome(ids: seq<string>, file: StoredFile, posts: seq<Post>)

  /** One event handled on the store `ids` persisted as `file`. */
  function Step(ids: seq<string>, file: StoredFile, configured: Option<string>, d: Delivery): (r: Outcome)
    // the store only grows, and at most by the author of the event
    ensures ids <= r.ids
    ensures Distinct(ids) ==> Distinct(r.ids)
    ensures r.ids != ids <==> NewAuthor(ids, configured, d.ev)
    ensures r.ids != ids ==> r.ids == ids + [d.ev.user.value]
    // filtered-out events and known authors change nothing and post nothing
    ensures !NewAuthor(ids, configured, d.ev) ==> r == Outcome(ids, file, [])
    // an insertion is saved at once: the whole new store is written
    ensures r.file == if NewAuthor(ids, configured, d.ev) then FileAfterWrite(file, r.ids, d.save) else file
    ensures NewAuthor(ids, configured, d.ev) && d.save == Written ==> r.file == Stored(r.ids)
    // the welcome goes out exactly when a new author's insertion was saved
    ensures WelcomePost(d.ev) in r.posts <==> NewAuthor(ids, configured, d.ev) && d.save == Written
    // the fallback goes out exactly when the save or the welcome post threw
    ensures FallbackPost(d.ev) in r.posts
            <==> NewAuthor(ids, configured, d.ev) && (d.save != Written || d.postFails)
    ensures r.posts ==
              if !NewAuthor(ids, configured, d.ev) then []
              else if d.save != Written then [FallbackPost(d.ev)]
              else [WelcomePost(d.ev)] + (if d.postFails then [FallbackPost(d.ev)] else [])
    ensures forall p :: p in r.posts ==> p.channel == d.ev.channel && p.threadTs == d.ev.ts
  {
    if !NewAuthor(ids, configured, d.ev) then
      Outcome(ids, file, [])
    else
      var ids' := ids + [d.ev.user.value];
      assert |FallbackMessage| != |WelcomeMessage|;
      var file' := FileAfterWrite(file, ids', d.save);
      if d.save != Written then
        Outcome(ids', file', Fallback(d.ev))
      else
        Outcome(ids', file', [WelcomePost(d.ev)] + (if d.postFails then Fallback(d.ev) else []))
  }

  /** The handler on the live store, issuing the posts it returns. */
  method HandleMessage(store: Store, configured: Option<string>, d: Delivery) returns (posts: seq<Post>)
    requires store.Valid()
    modifies store
    ensures store.Valid()
    ensures Outcome(store.ids, store.file, posts) == Step(old(store.ids), old(store.file), configured, d)
  {
    posts := [];
    var ev := d.ev;
    if configured != Some(ev.channel) {
      return;
    }
    if !Truthy(ev.user) || !Truthy(ev.text) || ev.kind != "message" {
      return;
    }
    if Truthy(ev.threadTs) {
      return;
    }
    var user := ev.user.value;
    if user !in store.ids {
      store.Add(user);
      var saved := store.Save(d.save);
      if !saved {
        posts := Fallback(ev);
        return;
      }
      posts := [WelcomePost(ev)];
      if d.postFails {
        posts := posts + Fallback(ev);
      }
    }
  }

  /** Events handled one after another, starting from the store `ids` persisted as `file`. */
  function Run(ids: seq<string>, file: StoredFile, configured: Option<string>, ds: seq<Delivery>): Outcome
    decreases |ds|
  {
    if ds == [] then Outcome(ids, file, [])
    else
      var s := Step(ids, file, configured, ds[0]);
      var rest := Run(s.ids, s.file, configured, ds[1..]);
      Outcome(rest.ids, rest.file, s.posts + rest.posts)
  }

  /** The author of every event in a run that drew a welcome post, in order. */
  function Welcomed(ids: seq<string>, file: StoredFile, configured: Option<string>, ds: seq<Delivery>): seq<string>
    decreases |ds|
  {
    if ds == [] then []
    else
      var s := Step(ids, file, configured, ds[0]);
      (if WelcomePost(ds[0].ev) in s.posts then [ds[0].ev.user.value] else [])
      + Welcomed(s.ids, s.file, configured, ds[1..])
  }

  /** The authors of the events of a run that pass the filters. */
  function Askers(configured: Option<string>, ds: seq<Delivery>): set<string>
    decreases |ds|
  {
    if ds == [] then {}
    else
      (if Qualifies(ds[0].ev, configured) then {ds[0].ev.user.value} else {})
      + Askers(configured, ds[1..])
  }

  /** Over any run the store keeps every id it had and never holds an id twice. */
  lemma {:induction false} StoreOnlyGrows(ids: seq<string>, file: StoredFile, configured: Option<string>, ds: seq<Delivery>)
    requires Distinct(ids)
    ensures ids <= Run(ids, file, configured, ds).ids
    ensures Distinct(Run(ids, file, configured, ds).ids)
    decreases |ds|
  {
    if ds != [] {
      var s := Step(ids, file, configured, ds[0]);
      StoreOnlyGrows(s.ids, s.file, configured, ds[1..]);
    }
  }

  /**
   * Welcome-once: over any run, no author is welcomed twice, no author
   * already in the store is welcomed, and every welcomed author ends up in
   * the store.
   */
  lemma {:induction false} WelcomeAtMostOnce(ids: seq<string>, file: StoredFile, configured: Option<string>, ds: seq<Delivery>)
    requires Distinct(ids)
    ensures Distinct(Welcomed(ids, file, configured, ds))
    ensures forall a :: a in Welcomed(ids, file, configured, ds) ==>
              a !in ids && a in Run(ids, file, configured, ds).ids && a in Askers(configured, ds)
    decreases |ds|
  {
    if ds != [] {
      var s := Step(ids, file, configured, ds[0]);
      var rest := Welcomed(s.ids, s.file, configured, ds[1..]);
      WelcomeAtMostOnce(s.ids, s.file, configured, ds[1..]);
      StoreOnlyGrows(s.ids, s.file, configured, ds[1..]);
      if WelcomePost(ds[0].ev) in s.posts {
        var u := ds[0].ev.user.value;
        assert s.ids == ids + [u];
        assert u !in rest;
        assert Welcomed(ids, file, configured, ds) == [u] + rest;
        assert u in s.ids && s.ids <= Run(s.ids, s.file, configured, ds[1..]).ids;
        assert u in Askers(configured, ds);
      } else {
        assert Welcomed(ids, file, configured, ds) == rest;
      }
    }
  }

  /**
   * When no save fails, every author of a root message in the channel who
   * was not yet in the store is welcomed (exactly once, by WelcomeAtMostOnce).
   */
  lemma {:induction false} EveryNewAskerWelcomed(ids: seq<string>, file: StoredFile, configured: Option<string>, ds: seq<Delivery>)
    requires forall i :: 0 <= i < |ds| ==> ds[i].save == Written
    ensures forall a :: a in Askers(configured, ds) && a !in ids ==> a in Welcomed(ids, file, configured, ds)
    decreases |ds|
  {
    if ds != [] {
      var s := Step(ids, file, configured, ds[0]);
      EveryNewAskerWelcomed(s.ids, s.file, configured, ds[1..]);
    }
  }

  /** A run of events that all fail the filters (other channels, thread replies, ...) changes nothing and posts nothing. */
  lemma {:induction false} FilteredRunIsInert(ids: seq<string>, file: StoredFile, configured: Option<string>, ds: seq<Delivery>)
    requires forall i :: 0 <= i < |ds| ==> !Qualifies(ds[i].ev, configured)
    ensures Run(ids, file, configured, ds) == Outcome(ids, file, [])
    decreases |ds|
  {
    if ds != [] {
      FilteredRunIsInert(ids, file, configured, ds[1..]);
    }
  }

  /** No write in the run truncated the file. */
  predicate NoTruncatedWrite(ds: seq<Delivery>) {
    forall i :: 0 <= i < |ds| ==> ds[i].save != WriteFailed
  }

  /** An id that is in the store and in the file stays in both over a run without truncated writes. */
  lemma {:induction false} PersistedStaysPersisted(ids: seq<string>, file: StoredFile, configured: Option<string>,
                                                  ds: seq<Delivery>, u: string)
    requires NoTruncatedWrite(ds)
    requires u in ids && file.Stored? && u in file.ids
    ensures u in Run(ids, file, configured, ds).ids
    ensures Run(ids, file, configured, ds).file.Stored? && u in Run(ids, file, configured, ds).file.ids
    decreases |ds|
  {
    if ds != [] {
      var s := Step(ids, file, configured, ds[0]);
      assert ds[0].save != WriteFailed;
      PersistedStaysPersisted(s.ids, s.file, configured, ds[1..], u);
    }
  }

  /**
   * Welcome-once across restarts: when no write truncates the file, every
   * author welcomed during a run is in the file at its end, so the store
   * loaded from that file at the next start already holds them.
   */
  lemma {:induction false} WelcomedArePersisted(ids: seq<string>, file: StoredFile, configured: Option<string>,
                                               ds: seq<Delivery>)
    requires NoTruncatedWrite(ds)
    ensures forall a :: a in Welcomed(ids, file, configured, ds) ==>
              a in LoadedIds(Run(ids, file, configured, ds).file)
    decreases |ds|
  {
    if ds != [] {
      var s := Step(ids, file, configured, ds[0]);
      var final := Run(ids, file, configured, ds);
      assert final.file == Run(s.ids, s.file, configured, ds[1..]).file;
      WelcomedArePersisted(s.ids, s.file, configured, ds[1..]);
      if WelcomePost(ds[0].ev) in s.posts {
        var u := ds[0].ev.user.value;
        PersistedStaysPersisted(s.ids, s.file, configured, ds[1..], u);
        assert Welcomed(ids, file, configured, ds) == [u] + Welcomed(s.ids, s.file, configured, ds[1..]);
      } else {
        assert Welcomed(ids, file, configured, ds) == Welcomed(s.ids, s.file, configured, ds[1..]);
      }
    }
  }

  /**
   * After a restart that loads the file a run left behind, no author
   * welcomed in that run is welcomed again by any later run, whatever they post.
   */
  lemma NoWelcomeAfterRestart(ids: seq<string>, file: StoredFile, configured: Option<string>,
                              ds: seq<Delivery>, ds2: seq<Delivery>)
    requires NoTruncatedWrite(ds)
    ensures forall a :: a in Welcomed(ids, file, configured, ds) ==>
              a !in Welcomed(LoadedIds(Run(ids, file, configured, ds).file),
                             Run(ids, file, configured, ds).file, configured, ds2)
  {
    var final := Run(ids, file, configured, ds).file;
    WelcomedArePersisted(ids, file, configured, ds);
    WelcomeAtMostOnce(LoadedIds(final), final, configured, ds2);
  }
}
