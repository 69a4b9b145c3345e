/** Pure list operations on the history log: prepend-and-cap, delete by id,
    and stripping the newest record's image before a retried write. */
module History {
  import opened Types

  /** The cap on the number of records kept. */
  const MaxItems: nat := 50

  /** A slice from the start: the first `n` elements, or all of them if
      there are fewer. */
  function Take<T>(s: seq<T>, n: nat): (r: seq<T>)
    ensures |r| == if |s| < n then |s| else n
    ensures forall i :: 0 <= i < |r| ==> r[i] == s[i]
  {
    if |s| <= n then s else s[..n]
  }

  /** The list handed to the save routine by an add: the new record
      followed by the old list, cut to the first 50. */
  function Prepend(history: seq<HistoryItem>, item: HistoryItem): (r: seq<HistoryItem>)
    ensures 0 < |r| <= MaxItems
    ensures r[0] == item
    ensures r == [item] + Take(history, MaxItems - 1)
  {
    Take([item] + history, MaxItems)
  }

  /** The ids of a list, in order. */
  function Ids(h: seq<HistoryItem>): (r: seq<string>)
    ensures |r| == |h|
    ensures forall i :: 0 <= i < |h| ==> r[i] == h[i].id
  {
    seq(|h|, i requires 0 <= i < |h| => h[i].id)
  }

  /** The list filtered to the records whose id differs from `id`. */
  function RemoveId(h: seq<HistoryItem>, id: string): (r: seq<HistoryItem>)
    ensures |r| <= |h|
    ensures forall i :: 0 <= i < |r| ==> r[i].id != id
  {
    if h == [] then []
    else (if h[0].id == id then [] else [h[0]]) + RemoveId(h[1..], id)
  }

  /** The number of records in `h` carrying `id`. */
  function CountId(h: seq<HistoryItem>, id: string): (n: nat)
    ensures n <= |h|
  {
    if h == [] then 0
    else (if h[0].id == id then 1 else 0) + CountId(h[1..], id)
  }

  /** Removing from a concatenation removes from each part: the survivors
      keep their relative order. */
  lemma {:induction false} RemoveIdAppend(a: seq<HistoryItem>, b: seq<HistoryItem>, id: string)
    ensures RemoveId(a + b, id) == RemoveId(a, id) + RemoveId(b, id)
    decreases |a|
  {
    if a == [] {
      assert a + b == b;
    } else {
      assert (a + b)[1..] == a[1..] + b;
      RemoveIdAppend(a[1..], b, id);
    }
  }

  /** Exactly the matching records disappear. */
  lemma {:induction false} RemoveIdLength(h: seq<HistoryItem>, id: string)
    ensures |RemoveId(h, id)| == |h| - CountId(h, id)
    decreases |h|
  {
    if h != [] {
      RemoveIdLength(h[1..], id);
    }
  }

  /** Deleting an id that no record carries leaves the list as it was. */
  lemma {:induction false} RemoveAbsentId(h: seq<HistoryItem>, id: string)
    requires forall i :: 0 <= i < |h| ==> h[i].id != id
    ensures RemoveId(h, id) == h
    decreases |h|
  {
    if h != [] {
      RemoveAbsentId(h[1..], id);
      assert [h[0]] + h[1..] == h;
    }
  }

  /** A record survives a delete exactly when it was there and does not
      carry the deleted id. */
  lemma {:induction false} RemoveIdMembers(h: seq<HistoryItem>, id: string, x: HistoryItem)
    ensures x in RemoveId(h, id) <==> x in h && x.id != id
    decreases |h|
  {
    if h != [] {
      RemoveIdMembers(h[1..], id, x);
      assert h == [h[0]] + h[1..];
    }
  }

  /** Deleting the same id twice is the same as deleting it once. */
  lemma RemoveIdIdempotent(h: seq<HistoryItem>, id: string)
    ensures RemoveId(RemoveId(h, id), id) == RemoveId(h, id)
  {
    var r := RemoveId(h, id);
    forall i | 0 <= i < |r|
      ensures r[i].id != id
    {
      RemoveIdMembers(h, id, r[i]);
    }
    RemoveAbsentId(r, id);
  }

  /** No two records share an id. */
  ghost predicate UniqueIds(h: seq<HistoryItem>)
  {
    forall i, j :: 0 <= i < |h| && 0 <= j < |h| && i != j ==> h[i].id != h[j].id
  }

  /** When record `k` is the only one carrying its id, deleting that id
      removes exactly record `k`. */
  lemma {:induction false} RemoveOnlyAt(h: seq<HistoryItem>, k: nat)
    requires k < |h|
    requires forall i :: 0 <= i < |h| && i != k ==> h[i].id != h[k].id
    ensures RemoveId(h, h[k].id) == h[..k] + h[k+1..]
    decreases k
  {
    var t := h[1..];
    if k == 0 {
      forall i | 0 <= i < |t|
        ensures t[i].id != h[0].id
      {
        assert t[i] == h[i + 1];
      }
      RemoveAbsentId(t, h[0].id);
    } else {
      forall i | 0 <= i < |t| && i != k - 1
        ensures t[i].id != t[k - 1].id
      {
        assert t[i] == h[i + 1];
      }
      RemoveOnlyAt(t, k - 1);
      assert h[..k] + h[k+1..] == [h[0]] + (t[..k-1] + t[k..]);
    }
  }

  /** With unique ids, deleting a present id removes exactly that record,
      so the list shortens by one. */
  lemma RemoveUniqueId(h: seq<HistoryItem>, k: nat)
    requires k < |h|
    requires UniqueIds(h)
    ensures RemoveId(h, h[k].id) == h[..k] + h[k+1..]
    ensures |RemoveId(h, h[k].id)| == |h| - 1
  {
    forall i | 0 <= i < |h| && i != k
      ensures h[i].id != h[k].id
    {
    }
    RemoveOnlyAt(h, k);
  }

  /** A record with its image made undefined and everything else copied. */
  function StripImage(item: HistoryItem): (r: HistoryItem)
    ensures r.result.imageBase64 == None
    ensures r.(result := r.result.(imageBase64 := item.result.imageBase64)) == item
  {
    item.(result := item.result.(imageBase64 := None))
  }

  /** The fallback list for the retried write: the newest record without
      its image, followed by the rest unchanged. */
  function StripLatestImage(h: seq<HistoryItem>): (r: seq<HistoryItem>)
    requires |h| > 0
    ensures |r| == |h|
    ensures r[0].result.imageBase64 == None
    ensures r[0].(result := r[0].result.(imageBase64 := h[0].result.imageBase64)) == h[0]
    ensures forall i :: 1 <= i < |h| ==> r[i] == h[i]
  {
    [StripImage(h[0])] + h[1..]
  }

  /** The stripped list differs from the original only in the image of
      record 0: every other record, and every other field of record 0, is
      unchanged, and putting the image back restores the original. */
  lemma StripLatestImageOnlyDropsImage(h: seq<HistoryItem>)
    requires |h| > 0
    ensures |StripLatestImage(h)| == |h|
    ensures StripLatestImage(h)[1..] == h[1..]
    ensures StripLatestImage(h)[0].result.imageBase64 == None
    ensures StripLatestImage(h)[0].id == h[0].id
    ensures StripLatestImage(h)[0].timestamp == h[0].timestamp
    ensures StripLatestImage(h)[0].input == h[0].input
    ensures StripLatestImage(h)[0].result.postContent == h[0].result.postContent
    ensures StripLatestImage(h)[0].result.imagePrompt == h[0].result.imagePrompt
    ensures var r := StripLatestImage(h);
      r[0].(result := r[0].result.(imageBase64 := h[0].result.imageBase64)) == h[0]
    ensures Ids(StripLatestImage(h)) == Ids(h)
  {
  }

  /** Stripping twice is stripping once, and a list whose newest record has
      no image is left as it is. */
  lemma StripLatestImageIdempotent(h: seq<HistoryItem>)
    requires |h| > 0
    ensures StripLatestImage(StripLatestImage(h)) == StripLatestImage(h)
    ensures h[0].result.imageBase64.None? ==> StripLatestImage(h) == h
  {
    if h[0].result.imageBase64.None? {
      assert [h[0]] + h[1..] == h;
    }
  }

  /** Capping after appending a capped list is the same as capping once:
      the cap can be applied after every add or once at the end. */
  lemma TakeAppendTake<T>(a: seq<T>, b: seq<T>, n: nat)
    ensures Take(a + Take(b, n), n) == Take(a + b, n)
  {
    var l := Take(a + Take(b, n), n);
    var r := Take(a + b, n);
    assert |l| == |r|;
    forall i | 0 <= i < |l|
      ensures l[i] == r[i]
    {
      if i >= |a| {
        assert l[i] == Take(b, n)[i - |a|];
      }
    }
  }

  /** Ids commute with prepending and with the cap. */
  lemma IdsPrependTake(item: HistoryItem, h: seq<HistoryItem>, n: nat)
    ensures Ids(Take([item] + h, n)) == Take([item.id] + Ids(h), n)
  {
    var l := Ids(Take([item] + h, n));
    var r := Take([item.id] + Ids(h), n);
    assert |l| == |r|;
    forall i | 0 <= i < |l|
      ensures l[i] == r[i]
    {
      if i > 0 {
        assert l[i] == h[i - 1].id;
      }
    }
  }

  /** A list with every image dropped: the view of a log that ignores the
      one payload a failed write may have removed. */
  function StripAll(h: seq<HistoryItem>): (r: seq<HistoryItem>)
    ensures |r| == |h|
    ensures forall i :: 0 <= i < |h| ==> r[i].result.imageBase64 == None
    ensures forall i :: 0 <= i < |h| ==> r[i] == StripImage(h[i])
  {
    seq(|h|, i requires 0 <= i < |h| => StripImage(h[i]))
  }

  /** Dropping images commutes with concatenation and with the cap. */
  lemma StripAllAppendTake(a: seq<HistoryItem>, b: seq<HistoryItem>, n: nat)
    ensures StripAll(a + b) == StripAll(a) + StripAll(b)
    ensures StripAll(Take(b, n)) == Take(StripAll(b), n)
  {
    assert |StripAll(a + b)| == |StripAll(a) + StripAll(b)|;
    forall i | 0 <= i < |a + b|
      ensures StripAll(a + b)[i] == (StripAll(a) + StripAll(b))[i]
    {
      if i >= |a| {
        assert (a + b)[i] == b[i - |a|];
      }
    }
  }

  /** `a` is `b` with the images of some records dropped: every record of
      `a` is either the record of `b` at the same place or that record
      without its image. */
  ghost predicate DropsOnlyImages(a: seq<HistoryItem>, b: seq<HistoryItem>)
  {
    |a| == |b| && forall i :: 0 <= i < |a| ==> a[i] == b[i] || a[i] == StripImage(b[i])
  }

  /** Dropping images twice is dropping images. */
  lemma DropsOnlyImagesTrans(x: seq<HistoryItem>, y: seq<HistoryItem>, z: seq<HistoryItem>)
    requires DropsOnlyImages(x, y) && DropsOnlyImages(y, z)
    ensures DropsOnlyImages(x, z)
  {
    forall i | 0 <= i < |x|
      ensures x[i] == z[i] || x[i] == StripImage(z[i])
    {
      assert StripImage(StripImage(z[i])) == StripImage(z[i]);
    }
  }

  /** The relation survives putting the same records in front and capping. */
  lemma DropsOnlyImagesPrefixTake(front: seq<HistoryItem>, p: seq<HistoryItem>,
                                  q: seq<HistoryItem>, n: nat)
    requires DropsOnlyImages(p, q)
    ensures DropsOnlyImages(Take(front + p, n), Take(front + q, n))
  {
    var l, r := Take(front + p, n), Take(front + q, n);
    forall i | 0 <= i < |l|
      ensures l[i] == r[i] || l[i] == StripImage(r[i])
    {
      if i >= |front| {
        assert l[i] == p[i - |front|] && r[i] == q[i - |front|];
      }
    }
  }

  /** Dropping images from the tail of a capped list, and then from the
      capped result, still only drops images from the whole. */
  lemma DropsOnlyImagesCompose(x: seq<HistoryItem>, front: seq<HistoryItem>,
                               p: seq<HistoryItem>, q: seq<HistoryItem>, n: nat)
    requires DropsOnlyImages(x, Take(front + p, n))
    requires DropsOnlyImages(p, Take(q, n))
    ensures DropsOnlyImages(x, Take(front + q, n))
  {
    DropsOnlyImagesPrefixTake(front, p, Take(q, n), n);
    DropsOnlyImagesTrans(x, Take(front + p, n), Take(front + Take(q, n), n));
    TakeAppendTake(front, q, n);
  }

  /** Lists that differ only in dropped images look the same once every
      image is ignored. */
  lemma DropsOnlyImagesStripAll(a: seq<HistoryItem>, b: seq<HistoryItem>)
    requires DropsOnlyImages(a, b)
    ensures StripAll(a) == StripAll(b)
  {
    forall i | 0 <= i < |a|
      ensures StripAll(a)[i] == StripAll(b)[i]
    {
      assert StripImage(StripImage(b[i])) == StripImage(b[i]);
    }
  }

  /** Once images are ignored, the fallback list is the original list. */
  lemma StripAllOfStripLatest(h: seq<HistoryItem>)
    requires |h| > 0
    ensures StripAll(StripLatestImage(h)) == StripAll(h)
  {
    assert StripImage(StripImage(h[0])) == StripImage(h[0]);
  }
}
