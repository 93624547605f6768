/**
 * The label diff of OperationsHelper.setArticleTagsBG. A first pass walks the
 * article's current tags and pairs each with a requested tag of the same
 * label (consuming it), a second pass resolves the unpaired requested labels
 * against the tag table. Labels are compared as whole strings.
 */
module TagDiff {
  import opened Options
  import opened Decimal
  import opened Entities

  /**
   * The labels of a list of tags, counted. It is the same bag as
   * `multiset(Labels(ts))` (EndToEnd.LabelsCountLikeBag), written as its own
   * recursion so that the diff lemmas below can peel one tag at a time.
   */
  function Bag(ts: seq<Tag>): multiset<string> {
    if ts == [] then multiset{} else multiset{ts[0].name} + Bag(ts[1..])
  }

  lemma {:induction false} BagConcat(a: seq<Tag>, b: seq<Tag>)
    ensures Bag(a + b) == Bag(a) + Bag(b)
  {
    if a != [] {
      assert (a + b)[1..] == a[1..] + b;
      BagConcat(a[1..], b);
    } else {
      assert a + b == b;
    }
  }

  /** Only the empty list has no labels. */
  lemma BagEmpty(ts: seq<Tag>)
    ensures Bag(ts) == multiset{} <==> ts == []
  {
    if ts != [] {
      assert ts[0].name in Bag(ts);
    }
  }

  /** Two bags are equal exactly when neither has anything beyond the other. */
  lemma SameBag(a: multiset<string>, b: multiset<string>)
    ensures (a - b == multiset{} && b - a == multiset{}) <==> a == b
  {
    if a - b == multiset{} && b - a == multiset{} {
      forall x ensures a[x] == b[x] {
        assert (a - b)[x] == 0 && (b - a)[x] == 0;
      }
    }
  }

  /** Taking out the tag at `k` takes one copy of its label out of the bag. */
  lemma BagRemoveAt(s: seq<Tag>, k: nat)
    requires k < |s|
    ensures Bag(s[..k] + s[k + 1..]) + multiset{s[k].name} == Bag(s)
  {
    var pre, post := s[..k], s[k + 1..];
    SplitAt(s, k);
    BagCons(s[k], post);
    BagConcat(pre, [s[k]] + post);
    BagConcat(pre, post);
    Rearrange(Bag(pre), Bag(post), multiset{s[k].name});
  }

  lemma SplitAt(s: seq<Tag>, k: nat)
    requires k < |s|
    ensures s == s[..k] + ([s[k]] + s[k + 1..])
  {
  }

  lemma BagCons(t: Tag, rest: seq<Tag>)
    ensures Bag([t] + rest) == multiset{t.name} + Bag(rest)
  {
    assert ([t] + rest)[1..] == rest;
  }

  lemma Rearrange(a: multiset<string>, b: multiset<string>, x: multiset<string>)
    ensures (a + b) + x == a + (x + b)
  {
  }

  /** The position of the first tag labelled `name`, as the source's inner search loops find it. */
  function FindLabel(ts: seq<Tag>, name: string): (r: Option<nat>)
    ensures r.Some? ==> r.value < |ts| && ts[r.value].name == name
    ensures r.Some? ==> forall j :: 0 <= j < r.value ==> ts[j].name != name
    ensures r.None? <==> name !in Bag(ts)
  {
    if ts == [] then None
    else if ts[0].name == name then Some(0)
    else
      match FindLabel(ts[1..], name)
      case None => None
      case Some(k) => Some(k + 1)
  }

  /** Result of the pass over the article's current tags. */
  datatype CurrentPass = CurrentPass(
    kept: seq<Tag>,       // current tags whose label was requested
    removed: seq<Tag>,    // current tags whose label was not (tagsToRemove)
    unmatched: seq<Tag>)  // requested tags not paired with a current tag

  /**
   * The loop over the current tags: a current tag whose label is among the
   * still-unpaired requested tags is kept and consumes the first such
   * requested tag; any other current tag is removed.
   */
  function MatchCurrent(current: seq<Tag>, requested: seq<Tag>): (r: CurrentPass)
    ensures |r.kept| + |r.removed| == |current|
    ensures multiset(r.kept) + multiset(r.removed) == multiset(current)
    ensures forall t :: t in r.removed ==> t in current
    ensures forall t :: t in r.unmatched ==> t in requested
    ensures r.removed == [] ==> r.kept == current
    decreases |current|
  {
    if current == [] then
      CurrentPass([], [], requested)
    else
      var t := current[0];
      match FindLabel(requested, t.name)
      case Some(k) =>
        var smaller := requested[..k] + requested[k + 1..];
        assert forall u :: u in smaller ==> u in requested;
        var rest := MatchCurrent(current[1..], smaller);
        assert current == [t] + current[1..];
        rest.(kept := [t] + rest.kept)
      case None =>
        var rest := MatchCurrent(current[1..], requested);
        assert current == [t] + current[1..];
        rest.(removed := [t] + rest.removed)
  }

  /** The counting facts of the current pass. */
  predicate BagsSplit(current: seq<Tag>, requested: seq<Tag>) {
    var r := MatchCurrent(current, requested);
    && Bag(r.kept) + Bag(r.removed) == Bag(current)
    && Bag(r.kept) + Bag(r.unmatched) == Bag(requested)
    && forall x :: x in Bag(r.removed) ==> x !in Bag(r.unmatched)
  }

  /**
   * Counted by label, the current pass splits the current tags into kept and
   * removed and the requested tags into kept and unmatched, and no label is
   * both removed and unmatched.
   */
  lemma {:induction false} MatchCurrentBags(current: seq<Tag>, requested: seq<Tag>)
    ensures BagsSplit(current, requested)
    decreases |current|, 1
  {
    if current != [] {
      match FindLabel(requested, current[0].name)
      case Some(k) => KeptTagBags(current, requested, k);
      case None => RemovedTagBags(current, requested);
    }
  }

  lemma {:induction false} KeptTagBags(current: seq<Tag>, requested: seq<Tag>, k: nat)
    requires current != [] && FindLabel(requested, current[0].name) == Some(k)
    ensures BagsSplit(current, requested)
    decreases |current|, 0
  {
    var t := current[0];
    var smaller := requested[..k] + requested[k + 1..];
    var rest := MatchCurrent(current[1..], smaller);
    assert MatchCurrent(current, requested) == rest.(kept := [t] + rest.kept);
    MatchCurrentBags(current[1..], smaller);
    BagRemoveAt(requested, k);
    assert ([t] + rest.kept)[1..] == rest.kept;
    KeepStep(multiset{t.name}, Bag(rest.kept), Bag(rest.removed), Bag(rest.unmatched),
             Bag(current[1..]), Bag(smaller));
  }

  lemma {:induction false} RemovedTagBags(current: seq<Tag>, requested: seq<Tag>)
    requires current != [] && FindLabel(requested, current[0].name).None?
    ensures BagsSplit(current, requested)
    decreases |current|, 0
  {
    var t := current[0];
    var rest := MatchCurrent(current[1..], requested);
    assert MatchCurrent(current, requested) == rest.(removed := [t] + rest.removed);
    MatchCurrentBags(current[1..], requested);
    assert ([t] + rest.removed)[1..] == rest.removed;
    RemoveStep(t.name, Bag(rest.kept), Bag(rest.removed), Bag(rest.unmatched),
               Bag(current[1..]), Bag(requested));
  }

  /** Counting step of a kept tag: its label joins the kept bag on both sides. */
  lemma KeepStep(n: multiset<string>, k: multiset<string>, r: multiset<string>, u: multiset<string>,
                 c: multiset<string>, q: multiset<string>)
    requires k + r == c && k + u == q
    ensures (n + k) + r == n + c && (n + k) + u == q + n
  {
  }

  /** Counting step of a removed tag: a label absent from the request cannot be unmatched. */
  lemma RemoveStep(x: string, k: multiset<string>, r: multiset<string>, u: multiset<string>,
                   c: multiset<string>, q: multiset<string>)
    requires k + r == c && k + u == q
    requires x !in q
    requires forall y :: y in r ==> y !in u
    ensures (multiset{x} + k) + r == multiset{x} + c
    ensures k + (multiset{x} + r) == multiset{x} + c
    ensures forall y :: y in multiset{x} + r ==> y !in u
  {
    assert u <= q;
  }

  /** Result of the pass over the unpaired requested tags. */
  datatype RequestedPass = RequestedPass(
    added: seq<Tag>,     // tags newly linked to the article, in request order
    inserted: seq<Tag>)  // those of them that are new rows of the tag table

  /**
   * The tag a requested tag is linked as: the first tag of the table with
   * its label, or the requested tag itself when the table has none.
   */
  function Resolve(table: seq<Tag>, t: Tag): (u: Tag)
    ensures u.name == t.name
    ensures t.name in Bag(table) ==> FindLabel(table, t.name).Some? && u == table[FindLabel(table, t.name).value]
    ensures t.name !in Bag(table) ==> u == t
  {
    match FindLabel(table, t.name)
    case Some(k) => table[k]
    case None => t
  }

  /**
   * The loop over the unpaired requested tags: each is linked as it
   * resolves against the tag table, in request order; those the table does
   * not know are inserted. The table is read once, before the loop.
   */
  function LinkRequested(unmatched: seq<Tag>, table: seq<Tag>): (r: RequestedPass)
    ensures |r.added| == |unmatched|
    ensures forall i :: 0 <= i < |unmatched| ==> r.added[i] == Resolve(table, unmatched[i])
    ensures forall t :: t in r.inserted <==> t in unmatched && t.name !in Bag(table)
    decreases |unmatched|
  {
    if unmatched == [] then
      RequestedPass([], [])
    else
      var t := unmatched[0];
      var rest := LinkRequested(unmatched[1..], table);
      var inserted := if t.name in Bag(table) then rest.inserted else [t] + rest.inserted;
      LinkStepResolves(unmatched, table, rest.added);
      LinkStepInserts(unmatched, table, rest.inserted, inserted);
      RequestedPass([Resolve(table, t)] + rest.added, inserted)
  }

  /** One step of the linking loop resolves the next tag in front of those already resolved. */
  lemma LinkStepResolves(unmatched: seq<Tag>, table: seq<Tag>, restAdded: seq<Tag>)
    requires unmatched != [] && |restAdded| == |unmatched| - 1
    requires forall i :: 0 <= i < |restAdded| ==> restAdded[i] == Resolve(table, unmatched[1..][i])
    ensures var added := [Resolve(table, unmatched[0])] + restAdded;
      forall i :: 0 <= i < |unmatched| ==> added[i] == Resolve(table, unmatched[i])
  {
    var added := [Resolve(table, unmatched[0])] + restAdded;
    forall i | 1 <= i < |unmatched|
      ensures added[i] == Resolve(table, unmatched[i])
    {
      assert added[i] == restAdded[i - 1];
      assert unmatched[1..][i - 1] == unmatched[i];
    }
  }

  /** One step of the linking loop inserts the next tag exactly when the table lacks its label. */
  lemma LinkStepInserts(unmatched: seq<Tag>, table: seq<Tag>, restInserted: seq<Tag>, inserted: seq<Tag>)
    requires unmatched != []
    requires forall u :: u in restInserted <==> u in unmatched[1..] && u.name !in Bag(table)
    requires inserted == if unmatched[0].name in Bag(table) then restInserted else [unmatched[0]] + restInserted
    ensures forall u :: u in inserted <==> u in unmatched && u.name !in Bag(table)
  {
    assert unmatched == [unmatched[0]] + unmatched[1..];
  }

  /** Linking keeps every requested label, counted. */
  lemma {:induction false} LinkRequestedKeepsLabels(unmatched: seq<Tag>, table: seq<Tag>)
    ensures Bag(LinkRequested(unmatched, table).added) == Bag(unmatched)
    decreases |unmatched|
  {
    if unmatched != [] {
      LinkRequestedKeepsLabels(unmatched[1..], table);
      var added := LinkRequested(unmatched, table).added;
      assert added[1..] == LinkRequested(unmatched[1..], table).added;
    }
  }

  /** The remote ids of the tags that carry one, in order. */
  function RemoteIds(ts: seq<Tag>): (ids: seq<Int32>)
    ensures |ids| <= |ts|
    ensures forall i :: 0 <= i < |ids| ==> exists t :: t in ts && t.remoteId == Some(ids[i])
    ensures (forall t :: t in ts ==> t.remoteId.None?) <==> ids == []
  {
    if ts == [] then []
    else
      var rest := RemoteIds(ts[1..]);
      assert forall t :: t in ts[1..] ==> t in ts;
      if ts[0].remoteId.Some? then [ts[0].remoteId.value] + rest else rest
  }

  /** The tag ids written to the deletion record: each remote id as Integer.toString writes it. */
  function RemoteIdTexts(ts: seq<Tag>): (texts: seq<string>)
    ensures |texts| == |RemoteIds(ts)|
    ensures forall i :: 0 <= i < |texts| ==> texts[i] == IntToString(RemoteIds(ts)[i])
  {
    var ids := RemoteIds(ts);
    seq(|ids|, i requires 0 <= i < |ids| => IntToString(ids[i]))
  }

  /** Every id text of a deletion record parses back to the remote id it was written from. */
  lemma RemoteIdTextsParse(ts: seq<Tag>)
    ensures forall i :: 0 <= i < |RemoteIdTexts(ts)| ==> ParseInt(RemoteIdTexts(ts)[i]) == Some(RemoteIds(ts)[i])
  {
    forall i | 0 <= i < |RemoteIdTexts(ts)|
      ensures ParseInt(RemoteIdTexts(ts)[i]) == Some(RemoteIds(ts)[i])
    {
      IntRoundTrip(RemoteIds(ts)[i]);
    }
  }

  /** Pointwise facts about counts that make the diff's bag identities hold. */
  lemma BagAlgebra(k: multiset<string>, r: multiset<string>, u: multiset<string>,
                   o: multiset<string>, n: multiset<string>)
    requires k + r == o && k + u == n
    requires forall x :: x in r ==> x !in u
    ensures k == o * n && r == o - n && u == n - o
  {
    forall x
      ensures k[x] == (o * n)[x] && r[x] == (o - n)[x] && u[x] == (n - o)[x]
    {
      assert o[x] == k[x] + r[x];
      assert n[x] == k[x] + u[x];
      if r[x] > 0 {
        assert x in r;
      }
    }
  }

  /** The whole diff of setArticleTagsBG. */
  datatype Diff = Diff(
    kept: seq<Tag>,
    removed: seq<Tag>,
    unmatched: seq<Tag>,  // requested tags no current tag paired with, in request order
    added: seq<Tag>,
    inserted: seq<Tag>,
    remoteDeletes: seq<string>)  // tagsToDelete

  /** The bag identities of the diff, from the two passes and the count algebra. */
  lemma DiffTagsBags(current: seq<Tag>, requested: seq<Tag>, table: seq<Tag>)
    ensures var first := MatchCurrent(current, requested);
      var second := LinkRequested(first.unmatched, table);
      && Bag(first.kept) == Bag(current) * Bag(requested)
      && Bag(first.removed) == Bag(current) - Bag(requested)
      && Bag(first.unmatched) == Bag(requested) - Bag(current)
      && Bag(second.added) == Bag(requested) - Bag(current)
      && Bag(first.kept + second.added) == Bag(requested)
  {
    var first := MatchCurrent(current, requested);
    var second := LinkRequested(first.unmatched, table);
    MatchCurrentBags(current, requested);
    LinkRequestedKeepsLabels(first.unmatched, table);
    BagAlgebra(Bag(first.kept), Bag(first.removed), Bag(first.unmatched), Bag(current), Bag(requested));
    BagConcat(first.kept, second.added);
  }

  /**
   * The diff of the article's current tags against the requested ones. As
   * counted label bags: the kept tags are the common part, the removed tags
   * are what the article has beyond the request, the added tags are what the
   * request has beyond the article, and the article ends with exactly the
   * requested labels. The article's new tag list is the kept tags in their
   * order followed by one resolved tag per unmatched requested tag. Only
   * removed tags with a remote id are queued for remote deletion.
   */
  function DiffTags(current: seq<Tag>, requested: seq<Tag>, table: seq<Tag>): (d: Diff)
    ensures Bag(d.kept) == Bag(current) * Bag(requested)
    ensures Bag(d.removed) == Bag(current) - Bag(requested)
    ensures Bag(d.added) == Bag(requested) - Bag(current)
    ensures Bag(d.kept + d.added) == Bag(requested)
    ensures forall t :: t in d.removed ==> t in current
    ensures forall t :: t in d.inserted ==> t in requested && t.name !in Bag(table)
    ensures d.remoteDeletes == RemoteIdTexts(d.removed)
    ensures d.removed == [] ==> d.kept == current
    ensures d.added == [] ==> d.inserted == []
    ensures (d.removed == [] && d.added == []) <==> Bag(current) == Bag(requested)
  {
    var first := MatchCurrent(current, requested);
    var second := LinkRequested(first.unmatched, table);
    DiffTagsBags(current, requested, table);
    BagEmpty(first.removed);
    BagEmpty(second.added);
    SameBag(Bag(current), Bag(requested));
    assert forall t :: t in second.inserted ==> t in first.unmatched;
    Diff(first.kept, first.removed, first.unmatched, second.added, second.inserted, RemoteIdTexts(first.removed))
  }

  /**
   * The shape of the diff: every current tag is either kept or removed (as
   * tags, not only as labels); the unmatched requested tags are the request
   * beyond the article; each added tag is its unmatched tag resolved against
   * the table, in request order; and exactly the unmatched tags whose label
   * the table lacks are inserted.
   */
  lemma DiffTagsShape(current: seq<Tag>, requested: seq<Tag>, table: seq<Tag>)
    ensures var d := DiffTags(current, requested, table);
      && multiset(d.kept) + multiset(d.removed) == multiset(current)
      && Bag(d.unmatched) == Bag(requested) - Bag(current)
      && (forall t :: t in d.unmatched ==> t in requested)
      && |d.added| == |d.unmatched|
      && (forall i :: 0 <= i < |d.unmatched| ==> d.added[i] == Resolve(table, d.unmatched[i]))
      && (forall t :: t in d.inserted <==> t in d.unmatched && t.name !in Bag(table))
  {
    DiffTagsBags(current, requested, table);
  }
}
