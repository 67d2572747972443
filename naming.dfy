/** File names in download-youtube-playlist.py: the sanitised title, the
    zero-padded position, the stable name "{position:03d} - {title}{suffix}",
    the canonical watch URL and the id recovered from it. */
module Naming {
  import opened Strings
  import opened Optional

  /** The characters removed from titles before they become part of a file name. */
  const Forbidden: string := "<>:\"/\\|?*"

  predicate IsForbidden(c: char) {
    c in Forbidden
  }

  predicate Clean(s: string) {
    forall i :: 0 <= i < |s| ==> !IsForbidden(s[i])
  }

  /** The title with every forbidden character dropped, the others kept in order. */
  function SafeTitle(title: string): (r: string)
    ensures Clean(r)
    ensures |r| <= |title|
  {
    if title == [] then []
    else (if IsForbidden(title[0]) then [] else [title[0]]) + SafeTitle(title[1..])
  }

  /** `a` is `b` with some characters left out, the rest in their order. */
  predicate IsSubsequence(a: string, b: string) {
    if a == [] then true
    else if b == [] then false
    else if a[0] == b[0] then IsSubsequence(a[1..], b[1..])
    else IsSubsequence(a, b[1..])
  }

  lemma {:induction false} SafeTitleIsSubsequence(title: string)
    ensures IsSubsequence(SafeTitle(title), title)
  {
    if title != [] {
      SafeTitleIsSubsequence(title[1..]);
      var rest := SafeTitle(title[1..]);
      if !IsForbidden(title[0]) {
        assert SafeTitle(title) == [title[0]] + rest;
        assert ([title[0]] + rest)[1..] == rest;
      } else {
        assert SafeTitle(title) == rest;
        SubsequenceDropHead(rest, title);
      }
    }
  }

  lemma {:induction false} SubsequenceDropHead(a: string, b: string)
    requires b != [] && IsSubsequence(a, b[1..])
    ensures IsSubsequence(a, b)
    decreases |a| + |b|
  {
    if a != [] && a[0] == b[0] {
      // `a[1..]` is a subsequence of `b[1..]` because `a` is.
      SubsequenceTail(a, b[1..]);
    }
  }

  lemma {:induction false} SubsequenceTail(a: string, b: string)
    requires a != [] && IsSubsequence(a, b)
    ensures IsSubsequence(a[1..], b)
    decreases |a| + |b|
  {
    if a[0] == b[0] {
      SubsequenceDropHead(a[1..], b);
    } else {
      SubsequenceTail(a, b[1..]);
      SubsequenceDropHead(a[1..], b);
    }
  }

  /** Exactly the forbidden characters are dropped: each other character keeps
      its number of occurrences. */
  lemma {:induction false} SafeTitleCounts(title: string)
    ensures forall c :: multiset(SafeTitle(title))[c] == if IsForbidden(c) then 0 else multiset(title)[c]
  {
    if title != [] {
      SafeTitleCounts(title[1..]);
      assert title == [title[0]] + title[1..];
      assert multiset(title) == multiset([title[0]]) + multiset(title[1..]);
    }
  }

  /** Sanitising distributes over concatenation. */
  lemma {:induction false} SafeTitleAppend(a: string, b: string)
    ensures SafeTitle(a + b) == SafeTitle(a) + SafeTitle(b)
  {
    if a != [] {
      var ab := a + b;
      assert ab[0] == a[0] && ab[1..] == a[1..] + b;
      SafeTitleAppend(a[1..], b);
      if !IsForbidden(a[0]) {
        assert SafeTitle(ab) == [a[0]] + SafeTitle(ab[1..]);
      }
    } else {
      assert a + b == b;
    }
  }

  /** A title without forbidden characters is kept as it is. */
  lemma {:induction false} SafeTitleKeepsClean(title: string)
    requires Clean(title)
    ensures SafeTitle(title) == title
  {
    if title != [] {
      SafeTitleKeepsClean(title[1..]);
    }
  }

  lemma SafeTitleIdempotent(title: string)
    ensures SafeTitle(SafeTitle(title)) == SafeTitle(title)
  {
    SafeTitleKeepsClean(SafeTitle(title));
  }

  /** `f"{position:03d}"`. */
  function PositionPrefix(position: int): (r: string)
  {
    FormatZeroPadded(position, 3)
  }

  /** The padded position holds only digits and a minus sign. */
  lemma PositionPrefixChars(position: int)
    ensures forall k :: 0 <= k < |PositionPrefix(position)| ==>
      PositionPrefix(position)[k] == '-' || IsDigit(PositionPrefix(position)[k])
  {
    var r := PositionPrefix(position);
    ZeroPaddedParses(position, 3);
    forall k | 0 <= k < |r| ensures r[k] == '-' || IsDigit(r[k]) {
      if position < 0 && k > 0 {
        assert r[k] == r[1..][k - 1];
      }
    }
  }

  /** "{position:03d} - {safe_title}" followed by the file's suffix. */
  function StableName(position: int, title: string, suffix: string): (r: string)
  {
    PositionPrefix(position) + NameTail(title, suffix)
  }

  /** What follows the padded position in a stable name. */
  function NameTail(title: string, suffix: string): string {
    " - " + SafeTitle(title) + suffix
  }

  /** The download template "{position:03d} - {safe_title}.%(ext)s" up to the
      extension placeholder. */
  function OutputStem(position: int, title: string): string {
    PositionPrefix(position) + " - " + SafeTitle(title)
  }

  /** The template once the downloader has filled in the payload's extension. */
  function FillTemplate(stem: string, ext: string): string {
    stem + "." + ext
  }

  /** The file a download of the item at `position` leaves behind. */
  function ArtifactName(position: int, title: string, ext: string): string {
    FillTemplate(OutputStem(position, title), ext)
  }

  /** A downloaded file carries the stable name of its item with the payload's
      extension as suffix, the same name a rename would give it. */
  lemma ArtifactIsStable(position: int, title: string, ext: string)
    ensures ArtifactName(position, title, ext) == StableName(position, title, "." + ext)
  {
    var d, t := PositionPrefix(position), SafeTitle(title);
    assert d + " - " + t + "." + ext == d + (" - " + t + ("." + ext));
  }

  /** The padded position and the rest of a stable name can be read back. */
  lemma StableNameParts(position: int, title: string, suffix: string)
    requires position >= 0
    ensures var n := StableName(position, title, suffix);
      var d := PositionPrefix(position);
      |d| >= 3 && AllDigits(d) && ParseDecimal(d) == position &&
      n[..|d|] == d && n[|d|..|d| + 3] == " - " && n[|d| + 3..] == SafeTitle(title) + suffix
  {
    var d := PositionPrefix(position);
    ZeroPaddedParses(position, 3);
    var rest := SafeTitle(title) + suffix;
    assert StableName(position, title, suffix) == d + (" - " + rest);
    SeparatorSlices(d, rest);
  }

  /** The three parts of `d + " - " + rest`, sliced back out. */
  lemma SeparatorSlices(d: string, rest: string)
    ensures var n := d + (" - " + rest);
      n[..|d|] == d && n[|d|..|d| + 3] == " - " && n[|d| + 3..] == rest
  {
    var n := d + (" - " + rest);
    assert n[|d|..] == " - " + rest;
    assert n[|d|..|d| + 3] == (" - " + rest)[..3];
    assert n[|d| + 3..] == (" - " + rest)[3..];
  }

  /** Positions that differ give names that differ, whatever the titles. */
  lemma StableNameDeterminesPosition(p: int, t1: string, s1: string, q: int, t2: string, s2: string)
    requires p >= 0 && q >= 0
    requires StableName(p, t1, s1) == StableName(q, t2, s2)
    ensures p == q
  {
    var d1, d2 := PositionPrefix(p), PositionPrefix(q);
    ZeroPaddedParses(p, 3);
    ZeroPaddedParses(q, 3);
    DigitRunsAgree(d1, NameTail(t1, s1), d2, NameTail(t2, s2));
  }

  /** A digit run followed by a space is determined by the string it starts. */
  lemma DigitRunsAgree(d1: string, r1: string, d2: string, r2: string)
    requires AllDigits(d1) && AllDigits(d2)
    requires r1 != [] && r1[0] == ' ' && r2 != [] && r2[0] == ' '
    requires d1 + r1 == d2 + r2
    ensures d1 == d2
  {
    var n := d1 + r1;
    if |d1| < |d2| {
      CharAfterRun(d1, r1, d2, r2);
      assert false;
    } else if |d2| < |d1| {
      CharAfterRun(d2, r2, d1, r1);
      assert false;
    }
    assert d1 == n[..|d1|] == d2;
  }

  lemma CharAfterRun(d1: string, r1: string, d2: string, r2: string)
    requires r1 != [] && |d1| < |d2| && d1 + r1 == d2 + r2
    ensures r1[0] == d2[|d1|]
  {
    assert (d1 + r1)[|d1|] == r1[0];
    assert (d2 + r2)[|d1|] == d2[|d1|];
  }

  /** Below 1000 the prefix is exactly three digits. */
  lemma PositionPrefixDigits(n: int)
    requires 0 <= n <= 999
    ensures PositionPrefix(n) == [DigitChar(n / 100), DigitChar(n / 10 % 10), DigitChar(n % 10)]
  {
    if n < 10 {
      PrefixOfOneDigit(n);
    } else if n < 100 {
      PrefixOfTwoDigits(n);
    } else {
      PrefixOfThreeDigits(n);
    }
  }

  lemma PrefixOfOneDigit(n: int)
    requires 0 <= n < 10
    ensures PositionPrefix(n) == [DigitChar(0), DigitChar(0), DigitChar(n)]
  {
    var d := Decimal(n);
    assert d == [DigitChar(n)];
    assert Zeros(2) == [DigitChar(0), DigitChar(0)];
    assert PositionPrefix(n) == Zeros(2) + d;
  }

  lemma PrefixOfTwoDigits(n: int)
    requires 10 <= n < 100
    ensures PositionPrefix(n) == [DigitChar(0), DigitChar(n / 10), DigitChar(n % 10)]
  {
    var d := Decimal(n);
    assert Decimal(n / 10) == [DigitChar(n / 10)];
    assert d == [DigitChar(n / 10), DigitChar(n % 10)];
    assert Zeros(1) == [DigitChar(0)];
    assert PositionPrefix(n) == Zeros(1) + d;
  }

  lemma PrefixOfThreeDigits(n: int)
    requires 100 <= n <= 999
    ensures PositionPrefix(n) == [DigitChar(n / 100), DigitChar(n / 10 % 10), DigitChar(n % 10)]
  {
    var q := n / 10;
    assert q / 10 == n / 100;
    var d := Decimal(n);
    assert Decimal(q / 10) == [DigitChar(n / 100)];
    assert Decimal(q) == [DigitChar(n / 100), DigitChar(q % 10)];
    assert d == [DigitChar(n / 100), DigitChar(q % 10), DigitChar(n % 10)];
    assert PositionPrefix(n) == d;
  }

  /** A number below 1000 from its three decimal digits. */
  lemma ThreeDigitSplit(n: int)
    requires 0 <= n <= 999
    ensures n / 100 < 10 && n == 100 * (n / 100) + 10 * (n / 10 % 10) + n % 10
  {
    var q := n / 10;
    assert n == 10 * q + n % 10;
    assert q == 10 * (q / 10) + q % 10;
    assert q / 10 == n / 100;
  }

  lemma ThreeDigitOrder(a: nat, b: nat, c: nat, x: nat, y: nat, z: nat)
    requires a < 10 && b < 10 && c < 10 && x < 10 && y < 10 && z < 10
    ensures LexLess([DigitChar(a), DigitChar(b), DigitChar(c)], [DigitChar(x), DigitChar(y), DigitChar(z)])
            <==> 100 * a + 10 * b + c < 100 * x + 10 * y + z
  {
    var u, v := [DigitChar(a), DigitChar(b), DigitChar(c)], [DigitChar(x), DigitChar(y), DigitChar(z)];
    var u1, v1 := [DigitChar(b), DigitChar(c)], [DigitChar(y), DigitChar(z)];
    var u2, v2 := [DigitChar(c)], [DigitChar(z)];
    assert u[1..] == u1 && v[1..] == v1 && u1[1..] == u2 && v1[1..] == v2;
    assert u2[1..] == [] && v2[1..] == [];
    assert LexLess(u2, v2) <==> c < z;
    assert LexLess(u1, v1) <==> b < y || (b == y && c < z);
    assert LexLess(u, v) <==> a < x || (a == x && (b < y || (b == y && c < z)));
  }

  /** For positions 0..999 the padded prefixes sort as strings in the same order
      as the positions sort as numbers. */
  lemma PositionPrefixOrder(m: int, n: int)
    requires 0 <= m <= 999 && 0 <= n <= 999
    ensures LexLess(PositionPrefix(m), PositionPrefix(n)) <==> m < n
  {
    PositionPrefixDigits(m);
    PositionPrefixDigits(n);
    ThreeDigitSplit(m);
    ThreeDigitSplit(n);
    var a, b, c := m / 100, m / 10 % 10, m % 10;
    var x, y, z := n / 100, n / 10 % 10, n % 10;
    ThreeDigitOrder(a, b, c, x, y, z);
  }

  /** Stable names of positions 0..999 sort by position, whatever the titles and suffixes. */
  lemma StableNamesSortByPosition(p: int, t1: string, s1: string, q: int, t2: string, s2: string)
    requires 0 <= p < q <= 999
    ensures LexLess(StableName(p, t1, s1), StableName(q, t2, s2))
  {
    PositionPrefixOrder(p, q);
    PositionPrefixDigits(p);
    PositionPrefixDigits(q);
    var x, y := " - " + SafeTitle(t1) + s1, " - " + SafeTitle(t2) + s2;
    LexLessExtend(PositionPrefix(p), PositionPrefix(q), x, y);
    assert StableName(p, t1, s1) == PositionPrefix(p) + x;
    assert StableName(q, t2, s2) == PositionPrefix(q) + y;
  }

  /** The three-digit width bounds that guarantee: "1000" sorts before "999". */
  lemma PositionPrefixOrderStopsAt1000()
    ensures LexLess(PositionPrefix(1000), PositionPrefix(999))
  {
    PrefixOfThreeDigits(999);
    var d := Decimal(1000);
    assert d[0] == '1' by {
      assert Decimal(1) == "1";
      assert Decimal(10) == Decimal(1) + "0";
      assert Decimal(100) == Decimal(10) + "0";
      assert d == Decimal(100) + "0";
    }
    assert PositionPrefix(1000) == d;
  }

  const WatchPrefix: string := "https://www.youtube.com/watch?v="
  const Marker: string := "watch?v="

  /** The canonical URL of a video, from its id. */
  function WatchUrl(id: string): (r: string)
    ensures StartsWith(r, WatchPrefix) && r[|WatchPrefix|..] == id
  {
    WatchPrefix + id
  }

  /** `url.split('watch?v=')` has `piece` as its second element: the marker's
      first occurrence is at `i`, and `piece` runs from after it up to the next
      occurrence or to the end. */
  predicate SecondPiece(url: string, i: int, piece: string) {
    && OccursAt(url, Marker, i)
    && (forall k :: 0 <= k < i ==> !OccursAt(url, Marker, k))
    && StartsWith(url[i + |Marker|..], piece)
    && (forall k :: i + |Marker| <= k < i + |Marker| + |piece| ==> !OccursAt(url, Marker, k))
    && (i + |Marker| + |piece| == |url| || OccursAt(url, Marker, i + |Marker| + |piece|))
  }

  /** `get_safe_filename`: `url.split('watch?v=')[1]`, the text between the first
      marker and the next one (or the end); `None` where Python raises IndexError. */
  function SafeFilename(url: string): (r: Option<string>)
    ensures r.None? <==> !Contains(url, Marker)
    ensures r.Some? ==> exists i :: SecondPiece(url, i, r.value)
  {
    var i := Find(url, Marker, 0);
    if i < 0 then None
    else
      var start := i + |Marker|;
      var j := Find(url, Marker, start);
      var stop := if j < 0 then |url| else j;
      assert url[start..][..stop - start] == url[start..stop];
      assert SecondPiece(url, i, url[start..stop]);
      Some(url[start..stop])
  }

  lemma MarkerNotInPrefixHead(id: string)
    ensures forall k :: 0 <= k < 24 ==> !OccursAt(WatchPrefix + id, Marker, k)
  {
    var u := WatchPrefix + id;
    assert forall j :: 0 <= j < 29 ==> WatchPrefix[j] != '?';
    forall k | 0 <= k < 24
      ensures !OccursAt(u, Marker, k)
    {
      assert u[k + 5] == WatchPrefix[k + 5] != '?';
      assert u[k..k + 8][5] == u[k + 5];
    }
  }

  lemma MarkerFirstAfterPrefix(id: string)
    ensures Find(WatchPrefix + id, Marker, 0) == 24
  {
    var u := WatchPrefix + id;
    MarkerNotInPrefixHead(id);
    assert u[24..32] == WatchPrefix[24..32] == Marker;
    assert OccursAt(u, Marker, 24);
  }

  lemma MarkerNotAfterPrefix(id: string)
    requires !Contains(id, Marker)
    ensures Find(WatchPrefix + id, Marker, 32) == -1
  {
    var u := WatchPrefix + id;
    forall k | k >= 32
      ensures !OccursAt(u, Marker, k)
    {
      if OccursAt(u, Marker, k) {
        assert u[k..k + 8] == id[k - 32..k - 32 + 8];
        assert OccursAt(id, Marker, k - 32);
        assert false;
      }
    }
  }

  /** The id is recovered from its watch URL, provided it does not itself hold
      the marker. */
  lemma SafeFilenameOfWatchUrl(id: string)
    requires !Contains(id, Marker)
    ensures SafeFilename(WatchUrl(id)) == Some(id)
  {
    var u := WatchUrl(id);
    MarkerFirstAfterPrefix(id);
    MarkerNotAfterPrefix(id);
    assert u[32..|u|] == id;
  }
}
