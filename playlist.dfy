/** `get_playlist_info` (download-youtube-playlist.py): the dictionary from
    video id to (position, title, url) built from the playlist's flat entries. */
module Playlist {
  import opened Optional
  import opened Naming
  import opened Collections

  /** One flat playlist entry as the metadata extractor reports it; the optional
      fields are dictionary keys that may be absent. */
  datatype Entry = Entry(id: string, playlistIndex: Option<int>, title: Option<string>)

  datatype Descriptor = Descriptor(position: int, title: string, url: string)

  /** A Python dict keyed by video id: its keys in insertion order, and its table. */
  datatype VideoInfo = VideoInfo(ids: seq<string>, table: map<string, Descriptor>)

  const UnknownTitle: string := "Unknown Title"

  /** The insertion order lists every key once. */
  predicate Valid(info: VideoInfo) {
    && Distinct(info.ids)
    && (forall id :: id in info.ids ==> id in info.table)
    && (forall id :: id in info.table ==> id in info.ids)
  }

  /** The descriptor of the entry at 0-based index `idx`: the entry's own
      `playlist_index` or else `idx + 1`, its title or else "Unknown Title". */
  function Describe(e: Entry, idx: nat): (d: Descriptor)
    ensures e.playlistIndex.None? ==> d.position == idx + 1
    ensures e.playlistIndex.Some? ==> d.position == e.playlistIndex.value
    ensures d.title == if e.title.Some? then e.title.value else UnknownTitle
    ensures d.url == WatchUrl(e.id)
  {
    Descriptor(e.playlistIndex.GetOr(idx + 1), e.title.GetOr(UnknownTitle), WatchUrl(e.id))
  }

  /** `d[id] = v` on a dict: a new key goes last, an existing key keeps its place. */
  function Put(info: VideoInfo, id: string, d: Descriptor): VideoInfo {
    VideoInfo(if id in info.table then info.ids else info.ids + [id], info.table[id := d])
  }

  /** The dict comprehension over `enumerate(entries)`: a dict whose insertion
      order lists each key once. */
  function PlaylistInfo(entries: seq<Entry>): (info: VideoInfo)
    ensures Valid(info)
    decreases |entries|
  {
    if entries == [] then VideoInfo([], map[])
    else
      var n := |entries| - 1;
      Put(PlaylistInfo(entries[..n]), entries[n].id, Describe(entries[n], n))
  }

  predicate HasId(entries: seq<Entry>, id: string) {
    exists j :: 0 <= j < |entries| && entries[j].id == id
  }

  /** Index of the first entry with this id. */
  function FirstIndex(entries: seq<Entry>, id: string): (i: nat)
    requires HasId(entries, id)
    ensures i < |entries| && entries[i].id == id
    ensures forall j :: 0 <= j < i ==> entries[j].id != id
  {
    if entries[0].id == id then 0
    else
      assert HasId(entries[1..], id) by {
        var j :| 0 <= j < |entries| && entries[j].id == id;
        assert entries[1..][j - 1] == entries[j];
      }
      1 + FirstIndex(entries[1..], id)
  }

  /** Index of the last entry with this id. */
  function LastIndex(entries: seq<Entry>, id: string): (i: nat)
    requires HasId(entries, id)
    ensures i < |entries| && entries[i].id == id
    ensures forall j :: i < j < |entries| ==> entries[j].id != id
  {
    var n := |entries| - 1;
    if entries[n].id == id then n
    else
      assert HasId(entries[..n], id) by {
        var j :| 0 <= j < |entries| && entries[j].id == id;
        assert entries[..n][j] == entries[j];
      }
      LastIndex(entries[..n], id)
  }

  /** The dict is keyed by exactly the ids of the entries, each listed once. */
  lemma {:induction false} PlaylistInfoKeys(entries: seq<Entry>)
    ensures Valid(PlaylistInfo(entries))
    ensures forall id :: id in PlaylistInfo(entries).table <==> HasId(entries, id)
    decreases |entries|
  {
    if entries != [] {
      var n := |entries| - 1;
      var prev := entries[..n];
      PlaylistInfoKeys(prev);
      forall id
        ensures HasId(entries, id) <==> HasId(prev, id) || id == entries[n].id
      {
        if HasId(entries, id) && id != entries[n].id {
          var j :| 0 <= j < |entries| && entries[j].id == id;
          assert prev[j] == entries[j];
        }
        if HasId(prev, id) {
          var j :| 0 <= j < |prev| && prev[j].id == id;
          assert entries[j] == prev[j];
        }
      }
    }
  }

  /** Duplicate ids collapse and the last entry with an id decides its descriptor. */
  lemma {:induction false} PlaylistInfoLastWins(entries: seq<Entry>, id: string)
    requires HasId(entries, id)
    ensures var i := LastIndex(entries, id);
      id in PlaylistInfo(entries).table && PlaylistInfo(entries).table[id] == Describe(entries[i], i)
    decreases |entries|
  {
    var n := |entries| - 1;
    if entries[n].id != id {
      var prev := entries[..n];
      assert HasId(prev, id) by {
        var j :| 0 <= j < |entries| && entries[j].id == id;
        assert prev[j] == entries[j];
      }
      PlaylistInfoLastWins(prev, id);
      var i := LastIndex(prev, id);
      assert LastIndex(entries, id) == i;
      assert prev[i] == entries[i];
    }
  }

  /** Both ids occur among the entries, and `x` is first seen before `y`. */
  predicate SeenBefore(entries: seq<Entry>, x: string, y: string) {
    HasId(entries, x) && HasId(entries, y) && FirstIndex(entries, x) < FirstIndex(entries, y)
  }

  /** Every id listed occurs among the entries, and earlier ids were first seen earlier. */
  predicate FirstSeenOrder(entries: seq<Entry>, ids: seq<string>) {
    forall a, b :: 0 <= a < b < |ids| ==> SeenBefore(entries, ids[a], ids[b])
  }

  /** The dict keeps its keys in the order in which their ids first appear. */
  lemma {:induction false} PlaylistInfoFirstSeenOrder(entries: seq<Entry>)
    ensures FirstSeenOrder(entries, PlaylistInfo(entries).ids)
    decreases |entries|
  {
    if entries != [] {
      var n := |entries| - 1;
      var prev := entries[..n];
      var info := PlaylistInfo(prev);
      PlaylistInfoKeys(prev);
      PlaylistInfoFirstSeenOrder(prev);
      if entries[n].id in info.table {
        OrderExtendedSame(entries, info.ids);
      } else {
        OrderExtendedNew(entries, info.ids);
      }
    }
  }

  lemma OrderExtendedSame(entries: seq<Entry>, ids: seq<string>)
    requires entries != []
    requires FirstSeenOrder(entries[..|entries| - 1], ids)
    ensures FirstSeenOrder(entries, ids)
  {
    var prev := entries[..|entries| - 1];
    forall a, b | 0 <= a < b < |ids|
      ensures SeenBefore(entries, ids[a], ids[b])
    {
      assert SeenBefore(prev, ids[a], ids[b]);
      OrderKept(entries, ids[a], ids[b]);
    }
  }

  lemma OrderExtendedNew(entries: seq<Entry>, ids: seq<string>)
    requires entries != []
    requires FirstSeenOrder(entries[..|entries| - 1], ids)
    requires forall x :: x in ids ==> HasId(entries[..|entries| - 1], x)
    requires !HasId(entries[..|entries| - 1], entries[|entries| - 1].id)
    ensures FirstSeenOrder(entries, ids + [entries[|entries| - 1].id])
  {
    var prev := entries[..|entries| - 1];
    var all := ids + [entries[|entries| - 1].id];
    forall a, b | 0 <= a < b < |all|
      ensures SeenBefore(entries, all[a], all[b])
    {
      assert all[a] == ids[a] && ids[a] in ids;
      if b < |ids| {
        assert all[b] == ids[b];
        assert SeenBefore(prev, ids[a], ids[b]);
        OrderKept(entries, ids[a], ids[b]);
      } else {
        NewIdAfterOld(entries, ids[a]);
      }
    }
  }

  /** Appending an entry keeps the first-seen order of ids already present. */
  lemma OrderKept(entries: seq<Entry>, x: string, y: string)
    requires entries != [] && SeenBefore(entries[..|entries| - 1], x, y)
    ensures SeenBefore(entries, x, y)
  {
    FirstIndexOfPrefix(entries, |entries| - 1, x);
    FirstIndexOfPrefix(entries, |entries| - 1, y);
  }

  /** A new id, seen only in the last entry, comes after every id seen before it. */
  lemma NewIdAfterOld(entries: seq<Entry>, x: string)
    requires entries != [] && HasId(entries[..|entries| - 1], x)
    requires !HasId(entries[..|entries| - 1], entries[|entries| - 1].id)
    ensures SeenBefore(entries, x, entries[|entries| - 1].id)
  {
    FirstIndexOfPrefix(entries, |entries| - 1, x);
    NewIdFirstSeenLast(entries, entries[|entries| - 1].id);
  }

  /** An id absent from all entries but the last is first seen there. */
  lemma NewIdFirstSeenLast(entries: seq<Entry>, id: string)
    requires entries != [] && entries[|entries| - 1].id == id
    requires !HasId(entries[..|entries| - 1], id)
    ensures HasId(entries, id) && FirstIndex(entries, id) == |entries| - 1
  {
    var n := |entries| - 1;
    assert HasId(entries, id);
    var f := FirstIndex(entries, id);
  }

  /** An id present in the first `n` entries is first seen at the same index in all of them. */
  lemma FirstIndexOfPrefix(entries: seq<Entry>, n: nat, id: string)
    requires n <= |entries| && HasId(entries[..n], id)
    ensures HasId(entries, id) && FirstIndex(entries, id) == FirstIndex(entries[..n], id)
  {
    var prev := entries[..n];
    var i := FirstIndex(prev, id);
    assert entries[i] == prev[i];
    var k := FirstIndex(entries, id);
  }

  /** The descriptors in the dict's iteration order. */
  function Items(info: VideoInfo): (items: seq<Descriptor>)
    requires Valid(info)
    ensures |items| == |info.ids|
    ensures forall i :: 0 <= i < |items| ==> items[i] == info.table[info.ids[i]]
  {
    seq(|info.ids|, i requires 0 <= i < |info.ids| => info.table[info.ids[i]])
  }

  /** Every descriptor's url is the watch URL of its own key. */
  lemma {:induction false} PlaylistInfoUrls(entries: seq<Entry>)
    ensures forall id :: id in PlaylistInfo(entries).table ==> PlaylistInfo(entries).table[id].url == WatchUrl(id)
    decreases |entries|
  {
    if entries != [] {
      PlaylistInfoUrls(entries[..|entries| - 1]);
    }
  }

  /** Distinct keys give distinct urls, so the items' urls are distinct. */
  lemma ItemUrlsDistinct(entries: seq<Entry>)
    ensures var info := PlaylistInfo(entries);
      Valid(info) && forall i, j :: 0 <= i < j < |info.ids| ==> Items(info)[i].url != Items(info)[j].url
  {
    var info := PlaylistInfo(entries);
    PlaylistInfoKeys(entries);
    PlaylistInfoUrls(entries);
    forall i, j | 0 <= i < j < |info.ids|
      ensures Items(info)[i].url != Items(info)[j].url
    {
      var a, b := info.ids[i], info.ids[j];
      assert Items(info)[i].url == WatchUrl(a) && Items(info)[j].url == WatchUrl(b);
      assert WatchUrl(a)[|WatchPrefix|..] == a;
    }
  }
}
