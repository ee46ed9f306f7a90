/** The workspace registry (identity/workspaces.py): slugs stay reserved and unique, live names stay unique per user. */
module Workspaces {
  import opened Options
  import opened Filtering
  import opened Slugs

  /** The descriptive attributes, which the registry only keeps. */
  datatype Details = Details(appType: string, cloudProvider: string, endpoints: seq<string>, expectedVolume: string,
                             retentionDays: int)

  /** What the registry's invariants are about. */
  datatype Entry = Entry(user: string, name: string, slug: string, deleted: bool)

  type View = map<string, Entry>

  predicate Live(v: View, id: string) {
    id in v && !v[id].deleted
  }

  predicate OwnedLive(v: View, id: string, user: string) {
    Live(v, id) && v[id].user == user
  }

  /** Some live workspace of the user, other than `except`, has the name. */
  predicate NameTaken(v: View, user: string, name: string, except: string) {
    exists id | id in v :: id != except && OwnedLive(v, id, user) && v[id].name == name
  }

  /** In plain terms: refusing a new name means that the user has a live workspace of that name. */
  lemma TakenExactly(v: View, user: string, name: string, id: string)
    ensures NameTaken(v, user, name, id) <==>
            exists k | k in v :: k != id && !v[k].deleted && v[k].user == user && v[k].name == name
  {
    if k :| k in v && k != id && !v[k].deleted && v[k].user == user && v[k].name == name {
      assert OwnedLive(v, k, user);
    }
  }

  /** The reserved slugs are those of all records, tombstones included, and no two records share one. */
  ghost predicate SlugsExact(v: View, slugs: set<string>) {
    && (forall id | id in v :: v[id].slug in slugs)
    && (forall s | s in slugs :: exists id :: id in v && v[id].slug == s)
    && (forall a, b | a in v && b in v && a != b :: v[a].slug != v[b].slug)
  }

  ghost predicate NamesUnique(v: View) {
    forall a, b | Live(v, a) && Live(v, b) && a != b && v[a].user == v[b].user :: v[a].name != v[b].name
  }

  /** Until the numeric suffixes fill the whole slug, every reserved slug meets the contract. */
  ghost predicate SlugsLegal(slugs: set<string>) {
    |slugs| + 1 < CAPACITY ==> forall s | s in slugs :: SlugContract(s)
  }

  ghost predicate Consistent(v: View, slugs: set<string>) {
    SlugsExact(v, slugs) && NamesUnique(v) && SlugsLegal(slugs)
  }

  lemma CreateConsistent(v: View, slugs: set<string>, id: string, e: Entry, desired: string)
    requires Consistent(v, slugs) && id !in v && !e.deleted
    requires !NameTaken(v, e.user, e.name, id)
    requires SlugContract(desired) && FirstFree(desired, slugs, e.slug)
    ensures Consistent(v[id := e], slugs + {e.slug})
  {
    CreateKeepsSlugs(v, slugs, id, e);
    CreateKeepsNames(v, id, e);
    CreateKeepsLegal(slugs, desired, e.slug);
  }

  lemma CreateKeepsSlugs(v: View, slugs: set<string>, id: string, e: Entry)
    requires SlugsExact(v, slugs) && id !in v && e.slug !in slugs
    ensures SlugsExact(v[id := e], slugs + {e.slug})
  {
    var w := v[id := e];
    forall s | s in slugs + {e.slug}
      ensures exists k :: k in w && w[k].slug == s
    {
      if s in slugs {
        var k :| k in v && v[k].slug == s;
        assert w[k].slug == s;
      } else {
        assert w[id].slug == s;
      }
    }
  }

  lemma CreateKeepsNames(v: View, id: string, e: Entry)
    requires NamesUnique(v) && id !in v && !NameTaken(v, e.user, e.name, id)
    ensures NamesUnique(v[id := e])
  {
    var w := v[id := e];
    forall a, b | Live(w, a) && Live(w, b) && a != b && w[a].user == w[b].user
      ensures w[a].name != w[b].name
    {
      if a == id {
        assert OwnedLive(v, b, e.user);
      } else if b == id {
        assert OwnedLive(v, a, e.user);
      } else {
        assert Live(v, a) && Live(v, b);
      }
    }
  }

  lemma CreateKeepsLegal(slugs: set<string>, desired: string, slug: string)
    requires SlugsLegal(slugs) && SlugContract(desired) && FirstFree(desired, slugs, slug)
    ensures SlugsLegal(slugs + {slug})
  {
    hide SlugContract;
    assert |slugs + {slug}| == |slugs| + 1;
    if |slugs| + 2 < CAPACITY {
      FirstFreeMeetsContract(desired, slugs, slug);
    }
  }

  /** Changing a record's name to a free one, or tombstoning it, keeps everything consistent. */
  lemma ChangeConsistent(v: View, slugs: set<string>, id: string, e: Entry)
    requires Consistent(v, slugs) && Live(v, id) && e.slug == v[id].slug && e.user == v[id].user
    requires e.deleted || !NameTaken(v, e.user, e.name, id)
    ensures Consistent(v[id := e], slugs)
  {
    var w := v[id := e];
    forall s | s in slugs
      ensures exists k :: k in w && w[k].slug == s
    {
      var k :| k in v && v[k].slug == s;
      assert w[k].slug == s;
    }
    forall a, b | Live(w, a) && Live(w, b) && a != b && w[a].user == w[b].user
      ensures w[a].name != w[b].name
    {
      assert Live(v, a) && Live(v, b);
      if a == id {
        assert OwnedLive(v, b, e.user);
      } else if b == id {
        assert OwnedLive(v, a, e.user);
      }
    }
  }

  /** The ids in the order of their creation. */
  ghost predicate Listed(order: seq<string>, ids: set<string>) {
    (forall id :: id in order <==> id in ids) && forall i, j | 0 <= i < j < |order| :: order[i] != order[j]
  }

  lemma ListedMore(order: seq<string>, ids: set<string>, id: string)
    requires Listed(order, ids) && id !in ids
    ensures Listed(order + [id], ids + {id})
  {
  }

  /** The live workspaces of the user, in the order of their creation. */
  function Mine(order: seq<string>, v: View, user: string): seq<string> {
    FilterMap(order, KeepMine(v, user))
  }

  function KeepMine(v: View, user: string): string -> Option<string> {
    (id: string) => if OwnedLive(v, id, user) then Some(id) else None
  }

  /** The ids occur in the order given, at increasing positions. */
  ghost predicate InOrder(ids: seq<string>, order: seq<string>) {
    exists at: seq<nat> :: OrderedAt(ids, order, at)
  }

  ghost predicate OrderedAt(ids: seq<string>, order: seq<string>, at: seq<nat>) {
    && |at| == |ids| && (forall i, j | 0 <= i < j < |at| :: at[i] < at[j])
    && forall i | 0 <= i < |at| :: at[i] < |order| && order[at[i]] == ids[i]
  }

  lemma OrderedMore(ids: seq<string>, order: seq<string>, at: seq<nat>, i: nat)
    requires OrderedAt(ids, order, at) && i < |order| && forall k | 0 <= k < |at| :: at[k] < i
    ensures OrderedAt(ids + [order[i]], order, at + [i])
  {
  }

  lemma MineOfNone(v: View, user: string)
    ensures Mine([], v, user) == []
  {
  }

  lemma {:induction false} MineMore(order: seq<string>, v: View, user: string, i: nat)
    requires i < |order|
    ensures Mine(order[..i + 1], v, user)
         == Mine(order[..i], v, user) + if OwnedLive(v, order[i], user) then [order[i]] else []
  {
    assert order[..i + 1] == order[..i] + [order[i]];
    FilterMapAppend(order[..i], order[i], KeepMine(v, user));
  }

  lemma {:induction false} MineInOrder(order: seq<string>, v: View, user: string)
    ensures InOrder(Mine(order, v, user), order)
  {
    if order == [] {
      assert OrderedAt([], order, []);
    } else {
      var n: nat := |order| - 1;
      MineInOrder(order[..n], v, user);
      MineMore(order, v, user, n);
      assert order[..n + 1] == order;
      var ids := Mine(order[..n], v, user);
      hide Mine;
      var at: seq<nat> :| OrderedAt(ids, order[..n], at);
      forall k | 0 <= k < |at|
        ensures at[k] < n && order[at[k]] == ids[k]
      {
        assert order[..n][at[k]] == ids[k];
      }
      assert OrderedAt(ids, order, at);
      if OwnedLive(v, order[n], user) {
        OrderedMore(ids, order, at, n);
        assert Mine(order, v, user) == ids + [order[n]];
      } else {
        assert Mine(order, v, user) == ids;
      }
    }
  }

  lemma MineMembers(order: seq<string>, v: View, user: string)
    requires Listed(order, v.Keys)
    ensures forall id :: id in Mine(order, v, user) <==> OwnedLive(v, id, user)
  {
    forall id
      ensures id in Mine(order, v, user) <==> OwnedLive(v, id, user)
    {
      FilterMapMembers(order, KeepMine(v, user), id);
      if OwnedLive(v, id, user) {
        var i :| 0 <= i < |order| && order[i] == id;
        assert KeepMine(v, user)(order[i]) == Some(id);
      }
    }
  }

  class WorkspaceRecord {
    const workspaceId: string
    const user: string
    const slug: string
    const details: Details
    var name: string
    var deleted: bool

    constructor (workspaceId: string, user: string, name: string, slug: string, details: Details)
      ensures this.workspaceId == workspaceId && AsEntry() == Entry(user, name, slug, false)
      ensures this.user == user && this.name == name && this.slug == slug && this.details == details && !deleted
    {
      this.workspaceId, this.user, this.name, this.slug, this.details := workspaceId, user, name, slug, details;
      deleted := false;
    }

    function AsEntry(): Entry
      reads this
    {
      Entry(user, name, slug, deleted)
    }
  }

  datatype CreateResult = Created(record: WorkspaceRecord) | DuplicateName | MalformedSlug
  datatype RenameResult = Renamed(record: WorkspaceRecord) | NotOwned | NameCollision

  class WorkspaceRegistry {
    var byId: map<string, WorkspaceRecord>
    var order: seq<string>  // keys of byId in insertion order
    var slugs: set<string>

    function View(): View
      reads this, byId.Values
    {
      map id | id in byId :: byId[id].AsEntry()
    }

    ghost predicate Valid()
      reads this, byId.Values
    {
      (forall id | id in byId :: byId[id].workspaceId == id) && Listed(order, byId.Keys) && Consistent(View(), slugs)
    }

    constructor ()
      ensures Valid() && byId == map[] && slugs == {}
    {
      byId, order, slugs := map[], [], {};
    }

    /**
     Create a workspace. `cleaned` is the stripped name, `lowered` its lower-case form, `slug` the explicit slug or "";
     `id` is the fresh UUID.
     */
    method Create(user: string, cleaned: string, lowered: string, slug: string, details: Details, id: string)
      returns (r: CreateResult)
      requires Valid() && id !in byId
      modifies this
      ensures Valid()
      ensures r == DuplicateName <==> exists k | k in old(View()) ::
                  && !old(View())[k].deleted && old(View())[k].user == user && old(View())[k].name == cleaned
      ensures r == MalformedSlug <==> r != DuplicateName && slug != "" && !SlugContract(slug)
      ensures !r.Created? ==> byId == old(byId) && order == old(order) && slugs == old(slugs) && View() == old(View())
      ensures r.Created? ==>
                && fresh(r.record) && r.record.details == details && byId == old(byId)[id := r.record]
                && r.record.workspaceId == id && r.record.user == user && r.record.name == cleaned
                && !r.record.deleted && View() == old(View())[id := Entry(user, cleaned, r.record.slug, false)]
                && (var desired := if slug != "" then slug else AutoSlug(lowered);
                    && r.record.slug !in old(slugs) && (desired !in old(slugs) ==> r.record.slug == desired)
                    && (desired in old(slugs) ==>
                          exists c: nat :: 2 <= c <= |old(slugs)| + 2 && r.record.slug == Candidate(desired, c)
                            && forall k | 2 <= k < c :: Candidate(desired, k) in old(slugs)))
                && slugs == old(slugs) + {r.record.slug} && order == old(order) + [id]
    {
      hide Consistent, NameTaken, SlugContract, FirstFree, AutoSlug;
      TakenExactly(View(), user, cleaned, id);
      if NameTaken(View(), user, cleaned, id) {
        return DuplicateName;
      }
      if slug != "" && !SlugContract(slug) {
        return MalformedSlug;
      }
      AutoSlugCanonical(lowered);
      var desired := if slug != "" then slug else AutoSlug(lowered);
      var finalSlug := UniqueSlug(slugs, desired);
      var record := Admit(user, cleaned, desired, finalSlug, details, id);
      r := Created(record);
    }

    method Admit(user: string, cleaned: string, ghost desired: string, finalSlug: string, details: Details, id: string)
      returns (record: WorkspaceRecord)
      requires Valid() && id !in byId && !NameTaken(View(), user, cleaned, id)
      requires SlugContract(desired) && FirstFree(desired, slugs, finalSlug)
      modifies this
      ensures Valid()
      ensures fresh(record) && byId == old(byId)[id := record]
      ensures record.slug == finalSlug && record.details == details
      ensures record.workspaceId == id && record.user == user && record.name == cleaned && !record.deleted
      ensures View() == old(View())[id := Entry(user, cleaned, finalSlug, false)]
      ensures slugs == old(slugs) + {finalSlug} && order == old(order) + [id]
    {
      hide Consistent, NameTaken, SlugContract, FirstFree, Listed;
      ghost var before := View();
      record := new WorkspaceRecord(id, user, cleaned, finalSlug, details);
      assert View() == before;
      Enter(desired, record);
    }

    /** Put a new record, not yet known, into the registry. */
    method Enter(ghost desired: string, record: WorkspaceRecord)
      requires Valid() && record.workspaceId !in byId && !record.deleted
      requires !NameTaken(View(), record.user, record.name, record.workspaceId)
      requires SlugContract(desired) && FirstFree(desired, slugs, record.slug)
      modifies this
      ensures Valid() && byId == old(byId)[record.workspaceId := record]
      ensures View() == old(View())[record.workspaceId := record.AsEntry()]
      ensures slugs == old(slugs) + {record.slug} && order == old(order) + [record.workspaceId]
    {
      hide Consistent, NameTaken, SlugContract, FirstFree, Listed;
      ListedMore(order, byId.Keys, record.workspaceId);
      CreateConsistent(View(), slugs, record.workspaceId, record.AsEntry(), desired);
      assert byId[record.workspaceId := record].Keys == byId.Keys + {record.workspaceId};
      byId := byId[record.workspaceId := record];
      order := order + [record.workspaceId];
      slugs := slugs + {record.slug};
      assert View() == old(View())[record.workspaceId := record.AsEntry()];
    }

    /** The live workspace if the user owns it; missing, foreign and deleted ones look the same. */
    method GetOwned(id: string, user: string) returns (r: WorkspaceRecord?)
      requires Valid()
      ensures r != null <==> id in byId && !byId[id].deleted && byId[id].user == user
      ensures r != null ==> r == byId[id]
    {
      if id !in byId || byId[id].deleted || byId[id].user != user {
        return null;
      }
      r := byId[id];
    }

    /** The user's live workspaces, oldest first. */
    method ListMine(user: string) returns (ids: seq<string>)
      requires Valid()
      ensures ids == Mine(order, View(), user)
      ensures forall id :: id in ids <==> id in byId && !byId[id].deleted && byId[id].user == user
      ensures InOrder(ids, order)
    {
      hide Consistent, InOrder, Mine;
      MineMembers(order, View(), user);
      MineInOrder(order, View(), user);
      assert forall i | 0 <= i < |order| :: order[i] in byId;
      assert Mine(order[..0], View(), user) == [] by {
        MineOfNone(View(), user);
      }
      hide Listed;
      ids := [];
      for i := 0 to |order|
        invariant ids == Mine(order[..i], View(), user)
      {
        MineMore(order, View(), user, i);
        if byId[order[i]].user == user && !byId[order[i]].deleted {
          ids := ids + [order[i]];
        }
      }
      assert order[..|order|] == order;
    }

    method Rename(id: string, user: string, cleaned: string) returns (r: RenameResult)
      requires Valid()
      modifies byId.Values
      ensures Valid()
      ensures r == NotOwned <==> !(id in byId && !old(byId[id].deleted) && old(byId[id].user) == user)
      ensures r == NameCollision <==> r != NotOwned && exists k | k in old(View()) ::
                  k != id && !old(View())[k].deleted && old(View())[k].user == user && old(View())[k].name == cleaned
      ensures !r.Renamed? ==> View() == old(View())
      ensures r.Renamed? ==> r.record == byId[id] && View() == old(View())[id := old(View())[id].(name := cleaned)]
    {
      if id !in byId || byId[id].deleted || byId[id].user != user {
        return NotOwned;
      }
      hide Consistent, NameTaken;
      TakenExactly(View(), user, cleaned, id);
      if NameTaken(View(), user, cleaned, id) {
        return NameCollision;
      }
      SetName(id, cleaned);
      r := Renamed(byId[id]);
    }

    method SetName(id: string, cleaned: string)
      requires Valid() && Live(View(), id) && !NameTaken(View(), View()[id].user, cleaned, id)
      modifies byId.Values
      ensures Valid() && View() == old(View())[id := old(View())[id].(name := cleaned)]
    {
      hide Consistent, NameTaken;
      ChangeConsistent(View(), slugs, id, View()[id].(name := cleaned));
      OwnRecord(id);
      byId[id].name := cleaned;
      assert View() == old(View())[id := old(View())[id].(name := cleaned)];
    }

    /** Ids tell records apart, so no other id maps to this one's record. */
    lemma OwnRecord(id: string)
      requires id in byId && forall k | k in byId :: byId[k].workspaceId == k
      ensures forall k | k in byId && k != id :: byId[k] != byId[id]
    {
    }

    /** Soft delete: the record and its slug stay. */
    method Tombstone(id: string, user: string) returns (r: WorkspaceRecord?)
      requires Valid()
      modifies byId.Values
      ensures Valid()
      ensures r != null <==> id in byId && !old(byId[id].deleted) && old(byId[id].user) == user
      ensures r == null ==> View() == old(View())
      ensures r != null ==> r == byId[id] && View() == old(View())[id := old(View())[id].(deleted := true)]
    {
      if id !in byId || byId[id].deleted || byId[id].user != user {
        return null;
      }
      MarkDeleted(id);
      r := byId[id];
    }

    method MarkDeleted(id: string)
      requires Valid() && Live(View(), id)
      modifies byId.Values
      ensures Valid() && View() == old(View())[id := old(View())[id].(deleted := true)]
    {
      hide Consistent;
      ChangeConsistent(View(), slugs, id, View()[id].(deleted := true));
      OwnRecord(id);
      byId[id].deleted := true;
      assert View() == old(View())[id := old(View())[id].(deleted := true)];
    }
  }
}
