/** The download tracker of download-youtube-playlist.py: a text file with one
    URL per line, read once into a set (`load_downloaded_videos`) and grown
    only by appending (`save_downloaded_video`). */
module Ledger {
  import opened Strings

  /** The file's contents as one text: the lines concatenated. */
  function Join(lines: seq<string>): string {
    if lines == [] then [] else lines[0] + Join(lines[1..])
  }

  /** The length of the first line of a non-empty text, its '\n' included. */
  function FirstLineLength(text: string): (n: nat)
    requires text != []
    ensures 1 <= n <= |text|
    ensures forall k :: 0 <= k < n - 1 ==> text[k] != '\n'
    ensures text[n - 1] == '\n' || n == |text|
  {
    if text[0] == '\n' || |text| == 1 then 1 else 1 + FirstLineLength(text[1..])
  }

  /** The first line ends at the first newline. */
  lemma FirstLineLengthIs(text: string, n: nat)
    requires 1 <= n <= |text| && text[n - 1] == '\n'
    requires forall k :: 0 <= k < n - 1 ==> text[k] != '\n'
    ensures FirstLineLength(text) == n
  {
  }

  /** The lines that iterating over the open file yields. */
  function Lines(text: string): (r: seq<string>)
    decreases |text|
  {
    if text == [] then []
    else
      var n := FirstLineLength(text);
      [text[..n]] + Lines(text[n..])
  }

  /** The lines put back together are the text. */
  lemma {:induction false} LinesJoin(text: string)
    ensures Join(Lines(text)) == text
    decreases |text|
  {
    if text != [] {
      var n := FirstLineLength(text);
      LinesJoin(text[n..]);
      assert text[..n] + text[n..] == text;
    }
  }

  /** A line as the file yields it: not empty, and a '\n' only at its end. */
  predicate IsLine(line: string) {
    line != [] && forall k :: 0 <= k < |line| - 1 ==> line[k] != '\n'
  }

  /** Each line is a proper line, and every line but the last ends in '\n'. */
  lemma {:induction false} LinesShape(text: string)
    ensures forall k :: 0 <= k < |Lines(text)| ==> IsLine(Lines(text)[k])
    ensures forall k :: 0 <= k < |Lines(text)| - 1 ==> Terminated(Lines(text)[k])
    decreases |text|
  {
    if text != [] {
      var n := FirstLineLength(text);
      var head, tail := text[..n], text[n..];
      LinesShape(tail);
      var r := Lines(text);
      assert r == [head] + Lines(tail);
      assert IsLine(head) by {
        forall c | 0 <= c < n - 1 ensures head[c] != '\n' {
          assert head[c] == text[c];
        }
      }
      assert tail != [] ==> head[n - 1] == '\n';
    }
  }

  /** Empty, or ending with a newline: appending starts a fresh line. */
  predicate Terminated(text: string) {
    text == [] || text[|text| - 1] == '\n'
  }

  /** The set of the stripped lines. */
  function StrippedSet(lines: seq<string>): (r: set<string>)
  {
    if lines == [] then {} else {Strip(lines[0])} + StrippedSet(lines[1..])
  }

  lemma {:induction false} StrippedSetAppend(a: seq<string>, b: seq<string>)
    ensures StrippedSet(a + b) == StrippedSet(a) + StrippedSet(b)
  {
    if a == [] {
      assert a + b == b;
    } else {
      assert (a + b)[0] == a[0] && (a + b)[1..] == a[1..] + b;
      StrippedSetAppend(a[1..], b);
    }
  }

  /** `set(line.strip() for line in f)`. */
  function Loaded(text: string): (urls: set<string>)
  {
    StrippedSet(Lines(text))
  }

  /** A URL is loaded exactly when some line of the file strips to it. */
  lemma LoadedMembers(text: string, url: string)
    ensures url in Loaded(text) <==> exists k :: 0 <= k < |Lines(text)| && Strip(Lines(text)[k]) == url
  {
    var lines := Lines(text);
    StrippedSetMembers(lines, url);
    if url in Loaded(text) {
      var k :| 0 <= k < |lines| && Strip(lines[k]) == url;
      assert Strip(Lines(text)[k]) == url;
    }
  }

  lemma {:induction false} StrippedSetMembers(lines: seq<string>, x: string)
    ensures x in StrippedSet(lines) <==> exists k :: 0 <= k < |lines| && Strip(lines[k]) == x
  {
    if lines != [] {
      StrippedSetMembers(lines[1..], x);
      if x in StrippedSet(lines[1..]) {
        var k :| 0 <= k < |lines[1..]| && Strip(lines[1..][k]) == x;
        assert Strip(lines[k + 1]) == x;
      }
      if exists k :: 0 <= k < |lines| && Strip(lines[k]) == x {
        var k :| 0 <= k < |lines| && Strip(lines[k]) == x;
        if k > 0 {
          assert lines[1..][k - 1] == lines[k];
        }
      }
    }
  }

  /** `f.write(video_url + '\n')` on the file opened for appending. */
  function Record(text: string, url: string): (r: string)
    ensures Terminated(r)
  {
    text + url + "\n"
  }

  /** A terminated text's first line is also the first line of any extension of it. */
  lemma FirstLineOfAppend(a: string, b: string)
    requires a != [] && Terminated(a)
    ensures FirstLineLength(a + b) == FirstLineLength(a)
  {
    var ab, n := a + b, FirstLineLength(a);
    assert a[n - 1] == '\n';
    forall k | 0 <= k < n - 1 ensures ab[k] != '\n' {
      assert ab[k] == a[k];
    }
    assert ab[n - 1] == a[n - 1];
    FirstLineLengthIs(ab, n);
  }

  /** Appending to a terminated text appends lines and leaves the old ones alone. */
  lemma {:induction false} LinesAppend(a: string, b: string)
    requires Terminated(a)
    ensures Lines(a + b) == Lines(a) + Lines(b)
    decreases |a|
  {
    if a == [] {
      assert a + b == b;
    } else {
      var n := FirstLineLength(a);
      FirstLineOfAppend(a, b);
      var rest := a[n..];
      assert (a + b)[..n] == a[..n];
      assert (a + b)[n..] == rest + b;
      assert Terminated(rest) by {
        if rest != [] {
          assert rest[|rest| - 1] == a[|a| - 1];
        }
      }
      LinesAppend(rest, b);
    }
  }

  /** A URL without a newline is read back as one line. */
  lemma LinesOfRecord(url: string)
    requires '\n' !in url
    ensures Lines(url + "\n") == [url + "\n"]
  {
    var t := url + "\n";
    forall k | 0 <= k < |url| ensures t[k] != '\n' {
      assert t[k] == url[k];
    }
    FirstLineLengthIs(t, |t|);
    assert t[..|t|] == t && t[|t|..] == [];
  }

  lemma RecordLines(text: string, url: string)
    requires Terminated(text) && '\n' !in url
    ensures Lines(Record(text, url)) == Lines(text) + [url + "\n"]
  {
    assert Record(text, url) == text + (url + "\n");
    LinesAppend(text, url + "\n");
    LinesOfRecord(url);
  }

  lemma StrippedRecordLine(url: string)
    ensures StrippedSet([url + "\n"]) == {Strip(url)}
  {
    assert [url + "\n"][1..] == [];
    StripIgnoresTrailingSpace(url, "\n");
  }

  /** A tracker whose last line lacks its newline (a hand-edited file, say)
      loses that entry on the next save: the new URL is glued to it, so a
      ledger holding "a" and then saving "b" loads as {"ab"} alone. */
  lemma UnterminatedSaveMerges()
    ensures Loaded(Record("a", "b")) == {"ab"}
  {
    var line := "ab" + "\n";
    assert Record("a", "b") == line;
    LinesOfRecord("ab");
    assert [line][1..] == [];
    assert [] + "ab" + "\n" == line;
    StripPadded([], "ab", "\n");
  }

  /** Saving a URL into a well-formed tracker adds exactly its stripped form to
      what the next load returns; every earlier entry is still there. */
  lemma RecordLoads(text: string, url: string)
    requires Terminated(text) && '\n' !in url
    ensures Loaded(Record(text, url)) == Loaded(text) + {Strip(url)}
  {
    var line := url + "\n";
    var before := Lines(text);
    RecordLines(text, url);
    StrippedSetAppend(before, [line]);
    StrippedRecordLine(url);
    calc {
      Loaded(Record(text, url));
      StrippedSet(before + [line]);
      StrippedSet(before) + StrippedSet([line]);
    }
  }

  /** A URL with no whitespace at either end is read back as itself. */
  lemma SavedUrlIsLoaded(text: string, url: string)
    requires Terminated(text) && '\n' !in url && NoEdgeSpace(url)
    ensures url in Loaded(Record(text, url))
    ensures Loaded(text) <= Loaded(Record(text, url))
  {
    RecordLoads(text, url);
    assert [] + url + [] == url;
    StripPadded([], url, []);
  }

  /** The saves of a run, one after the other. */
  function RecordAll(text: string, urls: seq<string>): (r: string)
    decreases |urls|
  {
    if urls == [] then text else RecordAll(Record(text, urls[0]), urls[1..])
  }

  /** Saving one more URL after a run of saves. */
  lemma {:induction false} RecordAllSnoc(text: string, urls: seq<string>, url: string)
    ensures RecordAll(text, urls + [url]) == Record(RecordAll(text, urls), url)
    decreases |urls|
  {
    if urls == [] {
      assert [] + [url] == [url];
    } else {
      assert (urls + [url])[0] == urls[0] && (urls + [url])[1..] == urls[1..] + [url];
      RecordAllSnoc(Record(text, urls[0]), urls[1..], url);
    }
  }

  /** A saved URL without surrounding whitespace is itself among the stripped lines. */
  lemma {:induction false} StrippedSetHas(urls: seq<string>, k: nat)
    requires k < |urls| && NoEdgeSpace(urls[k])
    ensures urls[k] in StrippedSet(urls)
    decreases k
  {
    if k == 0 {
      assert [] + urls[0] + [] == urls[0];
      StripPadded([], urls[0], []);
    } else {
      assert urls[1..][k - 1] == urls[k];
      StrippedSetHas(urls[1..], k - 1);
    }
  }

  predicate NoNewlines(urls: seq<string>) {
    forall k :: 0 <= k < |urls| ==> '\n' !in urls[k]
  }

  /** After a run of saves the tracker loads to the old entries plus the saved
      URLs (stripped), and stays well formed. */
  lemma {:induction false} RecordAllLoads(text: string, urls: seq<string>)
    requires Terminated(text) && NoNewlines(urls)
    ensures Terminated(RecordAll(text, urls))
    ensures Loaded(RecordAll(text, urls)) == Loaded(text) + StrippedSet(urls)
    decreases |urls|
  {
    if urls != [] {
      RecordLoads(text, urls[0]);
      RecordAllLoads(Record(text, urls[0]), urls[1..]);
    }
  }

  /** The tracker file on disk. A missing file reads as empty text. */
  class TrackerFile {
    var present: bool
    var text: string

    constructor (present: bool, text: string)
      ensures this.present == present && this.text == text
    {
      this.present := present;
      this.text := text;
    }

    /** `load_downloaded_videos`: a missing tracker is created empty and gives no
        URLs; an existing one gives its stripped lines. */
    method Load() returns (urls: set<string>)
      modifies this
      ensures present
      ensures old(present) ==> text == old(text) && urls == Loaded(text)
      ensures !old(present) ==> text == [] && urls == {}
    {
      if !present {
        present := true;
        text := [];
        urls := {};
        return;
      }
      urls := Loaded(text);
    }

    /** `save_downloaded_video`: appends the URL and a newline, creating the file
        if it is missing. */
    method Save(url: string)
      modifies this
      ensures present
      ensures text == Record(if old(present) then old(text) else [], url)
    {
      var current := if present then text else [];
      present := true;
      text := Record(current, url);
    }
  }
}
