/** `rename_video_file` and `rename_existing_videos`
    (download-youtube-playlist.py): files that an earlier naming scheme saved
    as "{id}.{ext}" are renamed to the stable position-and-title name, for
    the videos the ledger already lists. */
module Reconcile {
  import opened Strings
  import opened Paths
  import opened Naming
  import opened FileSystem
  import opened Playlist

  /** The names the pattern "{id}.*" matches: the id, a dot, then anything. */
  predicate MatchesId(id: string, name: string) {
    StartsWith(name, id + ".")
  }

  /** The stable name for a matched file: its suffix is kept. */
  function RenamedTo(position: int, title: string, name: string): string {
    StableName(position, title, Suffix(name))
  }

  /** The name under which the downloader saves a payload with extension `ext`
      is the name a file "{id}.{ext}" is renamed to, so both naming schemes end
      at the same file name. */
  lemma RenameAgreesWithDownload(id: string, ext: string, position: int, title: string)
    requires id != [] && ext != [] && '.' !in ext
    ensures RenamedTo(position, title, id + "." + ext) == ArtifactName(position, title, ext)
  {
    var name := id + "." + ext;
    assert name == id + ("." + ext);
    assert LastIndexOf(name, '.') == |id| by {
      assert name[|id|] == '.';
      forall k | |id| < k < |name| ensures name[k] != '.' {
        assert name[k] == ext[k - |id| - 1];
      }
    }
    assert name[|id|..] == "." + ext;
    ArtifactIsStable(position, title, ext);
  }

  /** Some name in `names` matches the id. */
  predicate HasMatch(names: set<string>, id: string) {
    exists n :: n in names && MatchesId(id, n)
  }

  /** Two ids without a dot never match the same name: the id is what
      precedes the name's first dot. */
  lemma MatchesOneId(a: string, b: string, name: string)
    requires '.' !in a && '.' !in b
    ensures MatchesId(a, name) && MatchesId(b, name) ==> a == b
  {
    if MatchesId(a, name) && MatchesId(b, name) {
      FirstDotAfterId(a, name);
      FirstDotAfterId(b, name);
      assert |a| == |b|;
      assert a == name[..|a|] == b;
    }
  }

  /** In a "{id}.*" file of an id without a dot, the first dot follows the id. */
  lemma FirstDotAfterId(id: string, name: string)
    requires '.' !in id && MatchesId(id, name)
    ensures |id| < |name| && name[|id|] == '.' && name[..|id|] == id
    ensures forall k :: 0 <= k < |id| ==> name[k] != '.'
  {
    var p := id + ".";
    assert name[|id|] == name[..|p|][|id|] == p[|id|];
    assert name[..|id|] == name[..|p|][..|id|] == p[..|id|] == id;
    forall k | 0 <= k < |id| ensures name[k] != '.' {
      assert name[k] == name[..|id|][k] == id[k];
    }
  }

  /** A stable name is never a "{id}.*" file of an id without a dot or a space:
      its padded position, free of both, is followed by a space. */
  lemma StableNameMatchesNoId(position: int, title: string, suffix: string, id: string)
    requires '.' !in id && ' ' !in id
    ensures !MatchesId(id, StableName(position, title, suffix))
  {
    var prefix := PositionPrefix(position);
    var name := StableName(position, title, suffix);
    var p := id + ".";
    PositionPrefixChars(position);
    assert name == prefix + NameTail(title, suffix);
    assert name[|prefix|] == ' ';
    if |p| <= |name| {
      // an index at which the name and "{id}." differ
      var k := if |id| <= |prefix| then |id| else |prefix|;
      if |id| < |prefix| {
        assert name[k] == prefix[k] && p[k] == '.';
      } else if |id| == |prefix| {
        assert p[k] == '.';
      } else {
        assert p[k] == id[k];
      }
      assert name[..|p|][k] != p[k];
    }
  }

  /** Renames one file "{id}.*", picked arbitrarily among those present, to
      its stable name, and reports whether it did. `picked` is the file
      `next(glob)` yielded; without a match, and when the rename is refused,
      the directory is unchanged. */
  method RenameVideoFile(dir: Directory, id: string, position: int, title: string) returns (renamed: bool, ghost picked: string)
    modifies dir
    ensures HasMatch(old(dir.names), id) ==> picked in old(dir.names) && MatchesId(id, picked)
    ensures renamed == (picked in old(dir.names) && MatchesId(id, picked) && !dir.refuses(picked, RenamedTo(position, title, picked)))
    ensures dir.names == if renamed then old(dir.names) - {picked} + {RenamedTo(position, title, picked)} else old(dir.names)
    ensures !HasMatch(old(dir.names), id) ==> !renamed
    ensures HasMatch(old(dir.names), id) && (forall a, b :: !dir.refuses(a, b)) ==> renamed
  {
    if n :| n in dir.names && MatchesId(id, n) {
      picked := n;
      var target := RenamedTo(position, title, n);
      renamed := dir.Rename(n, target);
    } else {
      picked := [];
      renamed := false;
    }
  }

  /** Among the first `k` keys, those whose url is in the ledger set. */
  function DoneCount(info: VideoInfo, done: set<string>, k: nat): (c: nat)
    requires Valid(info) && k <= |info.ids|
    ensures c <= k
  {
    if k == 0 then 0
    else DoneCount(info, done, k - 1) + if info.table[info.ids[k - 1]].url in done then 1 else 0
  }

  /** `name` is a "{id}.*" file of one of the first `k` keys whose url is in the
      ledger set. */
  predicate DoneMatch(info: VideoInfo, done: set<string>, k: nat, name: string)
    requires Valid(info) && k <= |info.ids|
  {
    exists j :: 0 <= j < k && info.table[info.ids[j]].url in done && MatchesId(info.ids[j], name)
  }

  /** No key among the first `k` is counted exactly when none of their urls is
      in the ledger set. */
  lemma {:induction false} DoneCountZero(info: VideoInfo, done: set<string>, k: nat)
    requires Valid(info) && k <= |info.ids|
    ensures DoneCount(info, done, k) == 0 <==> forall j :: 0 <= j < k ==> info.table[info.ids[j]].url !in done
  {
    if k > 0 {
      DoneCountZero(info, done, k - 1);
    }
  }

  /** The names gone before key `i` belong to the first `i` keys; those key `i`
      takes away are its own "{id}.*" files, taken only when its url is in the
      ledger set. So everything gone belongs to the first `i + 1` keys. */
  lemma VanishedNamesMatch(info: VideoInfo, done: set<string>, i: nat, start: set<string>, before: set<string>, after: set<string>)
    requires Valid(info) && i < |info.ids|
    requires forall n :: n in start && n !in before ==> DoneMatch(info, done, i, n)
    requires forall n :: n in before && n !in after ==>
      info.table[info.ids[i]].url in done && MatchesId(info.ids[i], n)
    ensures forall n :: n in start && n !in after ==> DoneMatch(info, done, i + 1, n)
  {
    forall n | n in start && n !in after
      ensures DoneMatch(info, done, i + 1, n)
    {
      if n in before {
        assert info.table[info.ids[i]].url in done && MatchesId(info.ids[i], n);
      } else {
        var j :| 0 <= j < i && info.table[info.ids[j]].url in done && MatchesId(info.ids[j], n);
      }
    }
  }

  /** The folder's names and the number of files renamed so far. */
  datatype Tally = Tally(names: set<string>, count: nat)

  /** What `rename_existing_videos` works from: the dict, the ledger set, the
      renames the system refuses, the folder's names before the loop, and for
      each key handled so far the file `next(glob)` yielded for it (any name
      when the glob yielded nothing or the key was skipped). */
  datatype Pass = Pass(info: VideoInfo, done: set<string>, refuses: (string, string) -> bool,
                       start: set<string>, picks: seq<string>)

  predicate WellFormed(s: Pass) {
    Valid(s.info) && |s.picks| <= |s.info.ids|
  }

  /** The descriptor of key `j`. */
  function DescAt(s: Pass, j: nat): Descriptor
    requires WellFormed(s) && j < |s.info.ids|
  {
    s.info.table[s.info.ids[j]]
  }

  /** Key `j`'s url is in the ledger set, so the loop looks for its file. */
  predicate Listed(s: Pass, j: nat)
    requires WellFormed(s) && j < |s.info.ids|
  {
    DescAt(s, j).url in s.done
  }

  /** The stable name key `j`'s pick is renamed to. */
  function TargetAt(s: Pass, j: nat): string
    requires WellFormed(s) && j < |s.picks|
  {
    RenamedTo(DescAt(s, j).position, DescAt(s, j).title, s.picks[j])
  }

  /** One turn of the loop: the pick of a listed key is renamed when it is one
      of the key's "{id}.*" files and the system accepts; otherwise nothing
      changes. Either way the loop goes on to the next key. */
  function ReconcileStep(t: Tally, s: Pass, j: nat): Tally
    requires WellFormed(s) && j < |s.picks|
  {
    var pick := s.picks[j];
    if Listed(s, j) && pick in t.names && MatchesId(s.info.ids[j], pick) && !s.refuses(pick, TargetAt(s, j))
    then Tally(t.names - {pick} + {TargetAt(s, j)}, t.count + 1)
    else t
  }

  /** The folder and the count after the first `k` keys. */
  function Turn(s: Pass, k: nat): Tally
    requires WellFormed(s) && k <= |s.picks|
  {
    if k == 0 then Tally(s.start, 0) else ReconcileStep(Turn(s, k - 1), s, k - 1)
  }

  /** The glob yields one of the key's files whenever one is present at the
      key's turn. */
  predicate GlobAt(s: Pass, j: nat)
    requires WellFormed(s) && j < |s.picks|
  {
    Listed(s, j) && HasMatch(Turn(s, j).names, s.info.ids[j]) ==>
      s.picks[j] in Turn(s, j).names && MatchesId(s.info.ids[j], s.picks[j])
  }

  predicate GlobPicks(s: Pass)
    requires WellFormed(s)
  {
    forall j :: 0 <= j < |s.picks| ==> GlobAt(s, j)
  }

  /** A further pick does not change the earlier turns. */
  lemma {:induction false} TurnOfExtended(s: Pass, pick: string, k: nat)
    requires WellFormed(s) && |s.picks| < |s.info.ids| && k <= |s.picks|
    ensures WellFormed(s.(picks := s.picks + [pick]))
    ensures Turn(s.(picks := s.picks + [pick]), k) == Turn(s, k)
  {
    if k > 0 {
      TurnOfExtended(s, pick, k - 1);
      assert (s.picks + [pick])[k - 1] == s.picks[k - 1];
    }
  }

  /** A pick that follows the glob keeps all picks following it. */
  lemma GlobPicksExtended(s: Pass, pick: string)
    requires WellFormed(s) && |s.picks| < |s.info.ids| && GlobPicks(s)
    requires Listed(s, |s.picks|) && HasMatch(Turn(s, |s.picks|).names, s.info.ids[|s.picks|]) ==>
      pick in Turn(s, |s.picks|).names && MatchesId(s.info.ids[|s.picks|], pick)
    ensures WellFormed(s.(picks := s.picks + [pick]))
    ensures GlobPicks(s.(picks := s.picks + [pick]))
  {
    var s' := s.(picks := s.picks + [pick]);
    TurnOfExtended(s, pick, |s.picks|);
    forall j | 0 <= j < |s'.picks| ensures GlobAt(s', j) {
      TurnOfExtended(s, pick, j);
      if j < |s.picks| {
        assert GlobAt(s, j);
        assert s'.picks[j] == s.picks[j];
      }
    }
  }

  /** At most one file per listed key is renamed. */
  lemma {:induction false} TurnCountBound(s: Pass, k: nat)
    requires WellFormed(s) && k <= |s.picks|
    ensures Turn(s, k).count <= DoneCount(s.info, s.done, k)
  {
    if k > 0 {
      TurnCountBound(s, k - 1);
    }
  }

  /** The only names that disappear are "{id}.*" files of listed keys. */
  lemma {:induction false} TurnRemovesOnlyMatches(s: Pass, k: nat)
    requires WellFormed(s) && k <= |s.picks|
    ensures forall n :: n in s.start && n !in Turn(s, k).names ==> DoneMatch(s.info, s.done, k, n)
  {
    if k > 0 {
      TurnRemovesOnlyMatches(s, k - 1);
      VanishedNamesMatch(s.info, s.done, k - 1, s.start, Turn(s, k - 1).names, Turn(s, k).names);
    }
  }

  /** `name` is the stable name of an "{id}.*" file of one of the first `k`
      keys whose url is in the ledger set. */
  ghost predicate RenameTarget(info: VideoInfo, done: set<string>, k: nat, name: string)
    requires Valid(info) && k <= |info.ids|
  {
    exists j, m :: && 0 <= j < k && info.table[info.ids[j]].url in done && MatchesId(info.ids[j], m)
                   && name == RenamedTo(info.table[info.ids[j]].position, info.table[info.ids[j]].title, m)
  }

  /** Every name that appears is the stable name of a listed key's "{id}.*" file. */
  lemma {:induction false} TurnAddsOnlyTargets(s: Pass, k: nat)
    requires WellFormed(s) && k <= |s.picks|
    ensures forall n :: n in Turn(s, k).names && n !in s.start ==> RenameTarget(s.info, s.done, k, n)
  {
    if k > 0 {
      TurnAddsOnlyTargets(s, k - 1);
      var prev := Turn(s, k - 1);
      forall n | n in Turn(s, k).names && n !in s.start
        ensures RenameTarget(s.info, s.done, k, n)
      {
        if n in prev.names {
          var j, m :| && 0 <= j < k - 1 && s.info.table[s.info.ids[j]].url in s.done && MatchesId(s.info.ids[j], m)
                      && n == RenamedTo(s.info.table[s.info.ids[j]].position, s.info.table[s.info.ids[j]].title, m);
        } else {
          assert n == TargetAt(s, k - 1) && MatchesId(s.info.ids[k - 1], s.picks[k - 1]);
        }
      }
    }
  }

  /** With no key in the ledger set nothing is renamed. */
  lemma {:induction false} TurnIdle(s: Pass, k: nat)
    requires WellFormed(s) && k <= |s.picks|
    ensures (forall j :: 0 <= j < k ==> !Listed(s, j)) ==> Turn(s, k) == Tally(s.start, 0)
  {
    if k > 0 {
      TurnIdle(s, k - 1);
    }
  }

  /** Whatever happened at the keys before it, refused renames included, a
      listed key with a file present at its turn whose rename the system
      accepts has that file renamed and counted. */
  lemma RenameAtTurn(s: Pass, j: nat)
    requires WellFormed(s) && GlobPicks(s) && j < |s.picks|
    requires Listed(s, j) && HasMatch(Turn(s, j).names, s.info.ids[j]) && !s.refuses(s.picks[j], TargetAt(s, j))
    ensures s.picks[j] in Turn(s, j).names && MatchesId(s.info.ids[j], s.picks[j])
    ensures Turn(s, j + 1) == Tally(Turn(s, j).names - {s.picks[j]} + {TargetAt(s, j)}, Turn(s, j).count + 1)
  {
    assert GlobAt(s, j);
  }

  /** Among the first `k` keys, the listed ones with a file present at their turn. */
  function MatchedCount(s: Pass, k: nat): nat
    requires WellFormed(s) && k <= |s.picks|
  {
    if k == 0 then 0
    else MatchedCount(s, k - 1) + if Listed(s, k - 1) && HasMatch(Turn(s, k - 1).names, s.info.ids[k - 1]) then 1 else 0
  }

  /** When the system refuses nothing, every listed key with a file present at
      its turn is renamed, and only those: the count is their number. */
  lemma {:induction false} RenamesEveryMatch(s: Pass, k: nat)
    requires WellFormed(s) && GlobPicks(s) && k <= |s.picks|
    requires forall a, b :: !s.refuses(a, b)
    ensures Turn(s, k).count == MatchedCount(s, k)
  {
    if k > 0 {
      var j := k - 1;
      RenamesEveryMatch(s, j);
      assert GlobAt(s, j);
      var t := Turn(s, j);
      assert s.picks[j] in t.names && MatchesId(s.info.ids[j], s.picks[j]) ==> HasMatch(t.names, s.info.ids[j]);
    }
  }

  /** Ids without a dot or a space, as the platform's video ids are. */
  predicate PlainIds(info: VideoInfo) {
    forall id :: id in info.ids ==> '.' !in id && ' ' !in id
  }

  /** With plain ids, a "{id}.*" file of a key from `k` on is present at turn
      `k` exactly when it was present before the loop. */
  lemma {:induction false} LaterMatchesUntouched(s: Pass, k: nat, l: nat, n: string)
    requires WellFormed(s) && PlainIds(s.info) && k <= |s.picks| && k <= l < |s.info.ids|
    requires MatchesId(s.info.ids[l], n)
    ensures n in Turn(s, k).names <==> n in s.start
  {
    if k > 0 {
      var j := k - 1;
      LaterMatchesUntouched(s, j, l, n);
      var a, b := s.info.ids[j], s.info.ids[l];
      assert a in s.info.ids && b in s.info.ids;
      assert a != b;
      MatchesOneId(a, b, s.picks[j]);
      var d := DescAt(s, j);
      StableNameMatchesNoId(d.position, d.title, Suffix(s.picks[j]), b);
    }
  }

  /** Among the first `k` keys, the listed ones that had a file before the loop. */
  function OldMatchCount(s: Pass, k: nat): nat
    requires WellFormed(s) && k <= |s.info.ids|
  {
    if k == 0 then 0
    else OldMatchCount(s, k - 1) + if Listed(s, k - 1) && HasMatch(s.start, s.info.ids[k - 1]) then 1 else 0
  }

  /** With plain ids, a key has a file at its turn exactly when it had one
      before the loop. */
  lemma MatchAtTurn(s: Pass, j: nat)
    requires WellFormed(s) && PlainIds(s.info) && j < |s.picks|
    ensures HasMatch(Turn(s, j).names, s.info.ids[j]) <==> HasMatch(s.start, s.info.ids[j])
    ensures MatchesId(s.info.ids[j], s.picks[j]) ==> (s.picks[j] in Turn(s, j).names <==> s.picks[j] in s.start)
  {
    var id := s.info.ids[j];
    if HasMatch(Turn(s, j).names, id) {
      var n :| n in Turn(s, j).names && MatchesId(id, n);
      LaterMatchesUntouched(s, j, j, n);
    }
    if HasMatch(s.start, id) {
      var n :| n in s.start && MatchesId(id, n);
      LaterMatchesUntouched(s, j, j, n);
    }
    if MatchesId(id, s.picks[j]) {
      LaterMatchesUntouched(s, j, j, s.picks[j]);
    }
  }

  /** With plain ids and no refusal, every listed key that had a file "{id}.*"
      before the loop gets one of those files renamed to its stable name. */
  lemma OldMatchRenamed(s: Pass, j: nat)
    requires WellFormed(s) && GlobPicks(s) && PlainIds(s.info) && j < |s.picks|
    requires forall a, b :: !s.refuses(a, b)
    requires Listed(s, j) && HasMatch(s.start, s.info.ids[j])
    ensures s.picks[j] in s.start && MatchesId(s.info.ids[j], s.picks[j])
    ensures Turn(s, j + 1) == Tally(Turn(s, j).names - {s.picks[j]} + {TargetAt(s, j)}, Turn(s, j).count + 1)
  {
    MatchAtTurn(s, j);
    RenameAtTurn(s, j);
  }

  /** With plain ids and no refusal, the count is the number of listed keys that
      had a file "{id}.*" before the loop. */
  lemma {:induction false} RenamesEveryOldMatch(s: Pass, k: nat)
    requires WellFormed(s) && GlobPicks(s) && PlainIds(s.info) && k <= |s.picks|
    requires forall a, b :: !s.refuses(a, b)
    ensures Turn(s, k).count == OldMatchCount(s, k)
  {
    if k > 0 {
      RenamesEveryOldMatch(s, k - 1);
      RenamesEveryMatch(s, k);
      RenamesEveryMatch(s, k - 1);
      MatchAtTurn(s, k - 1);
    }
  }

  /** One pass of the loop body, as `RenameVideoFile` describes it, is the
      next turn of the fold, and the glob's choice keeps `GlobPicks`. */
  lemma LoopTurn(s: Pass, pick: string, names: set<string>, count: nat, names': set<string>, count': nat)
    requires WellFormed(s) && GlobPicks(s) && |s.picks| < |s.info.ids|
    requires Turn(s, |s.picks|) == Tally(names, count)
    requires var j := |s.picks|; var id := s.info.ids[j]; var d := DescAt(s, j);
      if Listed(s, j) then
        && (HasMatch(names, id) ==> pick in names && MatchesId(id, pick))
        && var renamed := pick in names && MatchesId(id, pick) && !s.refuses(pick, RenamedTo(d.position, d.title, pick));
           && names' == (if renamed then names - {pick} + {RenamedTo(d.position, d.title, pick)} else names)
           && count' == (if renamed then count + 1 else count)
      else names' == names && count' == count
    ensures var s' := s.(picks := s.picks + [pick]);
      WellFormed(s') && GlobPicks(s') && Turn(s', |s'.picks|) == Tally(names', count')
  {
    var j := |s.picks|;
    var s' := s.(picks := s.picks + [pick]);
    GlobPicksExtended(s, pick);
    TurnOfExtended(s, pick, j);
    assert TargetAt(s', j) == RenamedTo(DescAt(s, j).position, DescAt(s, j).title, pick);
    assert Turn(s', j + 1) == ReconcileStep(Turn(s, j), s', j);
  }

  /** Tries the rename for every key whose url is in the ledger set, going on
      after a failed one. The folder and the count are those of `Turn` over
      all keys, with the files the glob yielded; at most one file per such key
      is renamed, and the only names that disappear are "{id}.*" files of
      those keys. */
  method RenameExistingVideos(info: VideoInfo, done: set<string>, dir: Directory) returns (count: nat, ghost picks: seq<string>)
    requires Valid(info)
    modifies dir
    ensures var s := Pass(info, done, dir.refuses, old(dir.names), picks);
      && |picks| == |info.ids| && WellFormed(s) && GlobPicks(s)
      && Turn(s, |picks|) == Tally(dir.names, count)
    ensures count <= DoneCount(info, done, |info.ids|)
    ensures forall n :: n in old(dir.names) && n !in dir.names ==> DoneMatch(info, done, |info.ids|, n)
    ensures (forall j :: 0 <= j < |info.ids| ==> info.table[info.ids[j]].url !in done) ==> dir.names == old(dir.names)
  {
    count := 0;
    picks := [];
    var i := 0;
    while i < |info.ids|
      invariant i <= |info.ids| && |picks| == i
      invariant WellFormed(Pass(info, done, dir.refuses, old(dir.names), picks))
      invariant GlobPicks(Pass(info, done, dir.refuses, old(dir.names), picks))
      invariant Turn(Pass(info, done, dir.refuses, old(dir.names), picks), i) == Tally(dir.names, count)
    {
      var id := info.ids[i];
      var d := info.table[id];
      ghost var s := Pass(info, done, dir.refuses, old(dir.names), picks);
      ghost var before, counted := dir.names, count;
      ghost var picked: string := [];
      if d.url in done {
        var ok;
        ok, picked := RenameVideoFile(dir, id, d.position, d.title);
        if ok {
          count := count + 1;
        }
      }
      LoopTurn(s, picked, before, counted, dir.names, count);
      picks := picks + [picked];
      i := i + 1;
    }
    ghost var s := Pass(info, done, dir.refuses, old(dir.names), picks);
    TurnCountBound(s, |picks|);
    TurnRemovesOnlyMatches(s, |picks|);
    TurnIdle(s, |picks|);
  }
}
