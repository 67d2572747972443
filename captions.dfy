/** The sequential parts of caption.py: `rename_images`, which gives the images
    of a folder the names image1, image2, ... in sorted order without ever
    replacing a file, and the two string steps of `generate_captions`. */
module Captions {
  import opened Strings
  import opened Paths
  import opened Collections
  import opened FileSystem
  import opened Sorting

  /** A name whose lower-cased form ends in ".jpg", ".jpeg" or ".png". */
  predicate IsImageName(name: string) {
    var lower := Lower(name);
    EndsWith(lower, ".jpg") || EndsWith(lower, ".jpeg") || EndsWith(lower, ".png")
  }

  /** The list comprehension keeping the image names, in listing order. */
  function ImagesOf(listing: seq<string>): (r: seq<string>)
    ensures forall n :: n in r <==> n in listing && IsImageName(n)
    ensures multiset(r) <= multiset(listing)
  {
    if listing == [] then []
    else
      assert listing == [listing[0]] + listing[1..];
      (if IsImageName(listing[0]) then [listing[0]] else []) + ImagesOf(listing[1..])
  }

  /** "image{index}{ext}", `ext` being the name's `splitext` extension with its
      case kept. */
  function Target(index: nat, name: string): string {
    "image" + Decimal(index) + SplitExt(name).ext
  }

  /** Distinct indices give distinct new names, whatever the extensions: the
      index's digits end where the extension's dot, or the name, does. */
  lemma TargetsDistinct(i: nat, a: string, j: nat, b: string)
    requires Target(i, a) == Target(j, b)
    ensures i == j
  {
    var d1, e1 := Decimal(i), SplitExt(a).ext;
    var d2, e2 := Decimal(j), SplitExt(b).ext;
    assert ("image" + d1 + e1)[5..] == d1 + e1;
    assert ("image" + d2 + e2)[5..] == d2 + e2;
    DigitsBeforeExtension(d1, e1, d2, e2);
    DecimalRoundTrip(i);
    DecimalRoundTrip(j);
  }

  /** A run of digits followed by nothing or by a dot is determined by the
      text it starts. */
  lemma DigitsBeforeExtension(d1: string, e1: string, d2: string, e2: string)
    requires AllDigits(d1) && AllDigits(d2)
    requires e1 == [] || e1[0] == '.'
    requires e2 == [] || e2[0] == '.'
    requires d1 + e1 == d2 + e2
    ensures d1 == d2
  {
    var n := d1 + e1;
    LeadingDigitsOfRun(d1, e1);
    LeadingDigitsOfRun(d2, e2);
    assert d1 == n[..|d1|] == d2;
  }

  /** The number of digits a text starts with. */
  function LeadingDigits(s: string): nat {
    if s == [] || !IsDigit(s[0]) then 0 else 1 + LeadingDigits(s[1..])
  }

  lemma {:induction false} LeadingDigitsOfRun(d: string, e: string)
    requires AllDigits(d) && (e == [] || !IsDigit(e[0]))
    ensures LeadingDigits(d + e) == |d|
  {
    if d == [] {
      assert d + e == e;
    } else {
      assert (d + e)[1..] == d[1..] + e;
      LeadingDigitsOfRun(d[1..], e);
    }
  }

  /** An image named by its extension alone, such as ".jpg", has no extension
      for `splitext`, so its new name carries none. */
  lemma DotImageLosesExtension(index: nat, name: string)
    requires IsExtension(name)
    ensures Target(index, name) == "image" + Decimal(index)
  {
    DotNameHasNoExt(name);
  }

  /** The extension of the new name is the old one. */
  lemma TargetKeepsExtension(index: nat, name: string)
    ensures SplitExt(Target(index, name)).ext == SplitExt(name).ext
  {
    var stem := "image" + Decimal(index);
    var ext := SplitExt(name).ext;
    assert LastIndexOf(stem, '/') == -1 by {
      forall k | 0 <= k < |stem| ensures stem[k] != '/' {
        if k >= 5 {
          assert stem[k] == Decimal(index)[k - 5];
        }
      }
    }
    assert HasNonDot(stem, 0, |stem|) by { assert stem[0] == 'i'; }
    if ext == [] {
      assert Target(index, name) == stem;
      assert LastIndexOf(stem, '.') == -1 by {
        forall k | 0 <= k < |stem| ensures stem[k] != '.' {
          if k >= 5 {
            assert stem[k] == Decimal(index)[k - 5];
          }
        }
      }
    } else {
      SplitExtOfExtended(stem, ext);
    }
  }

  /** Where `rename_images` stands: the directory's names, and whether an
      `os.rename` raised, which ends the function. */
  datatype Renaming = Renaming(names: set<string>, raised: bool)

  /** One turn of the loop: a file whose target name exists is skipped, any
      other is renamed, and a refused rename (or a vanished file) raises. */
  function RenameStep(prev: Renaming, name: string, target: string, refuses: (string, string) -> bool): Renaming {
    if prev.raised || target in prev.names then prev
    else if name !in prev.names || refuses(name, target) then prev.(raised := true)
    else Renaming(prev.names - {name} + {target}, false)
  }

  /** The loop over the first `k` sorted images, the `k`-th getting index `k`. */
  function RenameRun(images: seq<string>, k: nat, names: set<string>, refuses: (string, string) -> bool): Renaming
    requires k <= |images|
  {
    if k == 0 then Renaming(names, false)
    else RenameStep(RenameRun(images, k - 1, names, refuses), images[k - 1], Target(k, images[k - 1]), refuses)
  }

  lemma StepKeepsCount(prev: Renaming, name: string, target: string, refuses: (string, string) -> bool)
    ensures |RenameStep(prev, name, target, refuses).names| == |prev.names|
  {
    var next := RenameStep(prev, name, target, refuses);
    if next.names != prev.names {
      var rest := prev.names - {name};
      assert prev.names == rest + {name};
      assert |prev.names| == |rest| + 1 && |next.names| == |rest| + 1;
    }
  }

  lemma StepKeepsOthers(prev: Renaming, name: string, target: string, refuses: (string, string) -> bool, n: string)
    requires n in prev.names && n != name
    ensures n in RenameStep(prev, name, target, refuses).names
  {
  }

  lemma StepAddsOnlyTarget(prev: Renaming, name: string, target: string, refuses: (string, string) -> bool)
    ensures RenameStep(prev, name, target, refuses).names <= prev.names + {target}
  {
  }

  /** No file is lost or replaced: the number of files never changes. */
  lemma {:induction false} RenameKeepsCount(images: seq<string>, k: nat, names: set<string>, refuses: (string, string) -> bool)
    requires k <= |images|
    ensures |RenameRun(images, k, names, refuses).names| == |names|
  {
    if k > 0 {
      RenameKeepsCount(images, k - 1, names, refuses);
      StepKeepsCount(RenameRun(images, k - 1, names, refuses), images[k - 1], Target(k, images[k - 1]), refuses);
    }
  }

  /** Only the images are renamed: every other name stays. */
  lemma {:induction false} RenameKeepsOthers(images: seq<string>, k: nat, names: set<string>, refuses: (string, string) -> bool)
    requires k <= |images|
    ensures forall n :: n in names && n !in images ==> n in RenameRun(images, k, names, refuses).names
  {
    if k > 0 {
      RenameKeepsOthers(images, k - 1, names, refuses);
      var prev := RenameRun(images, k - 1, names, refuses);
      forall n | n in names && n !in images
        ensures n in RenameRun(images, k, names, refuses).names
      {
        StepKeepsOthers(prev, images[k - 1], Target(k, images[k - 1]), refuses, n);
      }
    }
  }

  /** Every new name is the target of an image already processed. */
  lemma {:induction false} RenameAddsOnlyTargets(images: seq<string>, k: nat, names: set<string>, refuses: (string, string) -> bool)
    requires k <= |images|
    ensures forall n :: n in RenameRun(images, k, names, refuses).names && n !in names ==>
      exists j :: 0 <= j < k && n == Target(j + 1, images[j])
  {
    if k > 0 {
      RenameAddsOnlyTargets(images, k - 1, names, refuses);
      var prev := RenameRun(images, k - 1, names, refuses);
      var target := Target(k, images[k - 1]);
      StepAddsOnlyTarget(prev, images[k - 1], target, refuses);
      forall n | n in RenameRun(images, k, names, refuses).names && n !in names
        ensures exists j :: 0 <= j < k && n == Target(j + 1, images[j])
      {
        if n in prev.names {
          var j :| 0 <= j < k - 1 && n == Target(j + 1, images[j]);
        } else {
          assert n == Target(k - 1 + 1, images[k - 1]);
        }
      }
    }
  }

  /** The images not yet processed are all still present, so a rename never
      meets a missing file. */
  lemma {:induction false} PendingImagesPresent(images: seq<string>, k: nat, names: set<string>, refuses: (string, string) -> bool)
    requires k <= |images| && Distinct(images)
    requires forall n :: n in images ==> n in names
    ensures forall j :: k <= j < |images| ==> images[j] in RenameRun(images, k, names, refuses).names
  {
    if k > 0 {
      PendingImagesPresent(images, k - 1, names, refuses);
      var prev := RenameRun(images, k - 1, names, refuses);
      forall j | k <= j < |images|
        ensures images[j] in RenameRun(images, k, names, refuses).names
      {
        StepKeepsOthers(prev, images[k - 1], Target(k, images[k - 1]), refuses, images[j]);
      }
    }
  }

  /** When the system refuses no rename, the loop runs to its end. */
  lemma {:induction false} RenameCompletes(images: seq<string>, k: nat, names: set<string>, refuses: (string, string) -> bool)
    requires k <= |images| && Distinct(images)
    requires forall n :: n in images ==> n in names
    requires forall a, b :: !refuses(a, b)
    ensures !RenameRun(images, k, names, refuses).raised
  {
    if k > 0 {
      RenameCompletes(images, k - 1, names, refuses);
      PendingImagesPresent(images, k - 1, names, refuses);
      assert images[k - 1] in RenameRun(images, k - 1, names, refuses).names;
    }
  }

  /** Once a rename has raised, nothing more happens. */
  lemma {:induction false} RenameStopsAtRaise(images: seq<string>, j: nat, k: nat, names: set<string>, refuses: (string, string) -> bool)
    requires j <= k <= |images| && RenameRun(images, j, names, refuses).raised
    ensures RenameRun(images, k, names, refuses) == RenameRun(images, j, names, refuses)
    decreases k - j
  {
    if j < k {
      RenameStopsAtRaise(images, j, k - 1, names, refuses);
      assert RenameRun(images, k - 1, names, refuses).raised;
    }
  }

  /** The first two lines of `rename_images`: the folder's image names,
      sorted. */
  method SortedImages(dir: Directory) returns (images: seq<string>)
    ensures Sorted(images) && Distinct(images)
    ensures forall n :: n in images <==> n in dir.names && IsImageName(n)
  {
    var listing := dir.Listing();
    var candidates := ImagesOf(listing);
    DistinctSubmultiset(listing, candidates);
    images := Sort(candidates);
    DistinctSubmultiset(candidates, images);
    SameElements(candidates, images);
  }

  /** `rename_images`: the images of the folder, sorted, each renamed to its
      target unless that name exists. Returns the sorted images and whether
      the loop ran to its end; the folder's names are those of `RenameRun`. */
  method RenameImages(dir: Directory) returns (images: seq<string>, completed: bool)
    modifies dir
    ensures Sorted(images) && Distinct(images)
    ensures forall n :: n in images <==> n in old(dir.names) && IsImageName(n)
    ensures var run := RenameRun(images, |images|, old(dir.names), dir.refuses);
      dir.names == run.names && completed == !run.raised
  {
    images := SortedImages(dir);
    var i := 0;
    while i < |images|
      invariant i <= |images|
      invariant RenameRun(images, i, old(dir.names), dir.refuses) == Renaming(dir.names, false)
    {
      var name := images[i];
      var target := Target(i + 1, name);
      if !dir.Exists(target) {
        var ok := dir.Rename(name, target);
        if !ok {
          RenameStopsAtRaise(images, i + 1, |images|, old(dir.names), dir.refuses);
          return images, false;
        }
      }
      i := i + 1;
    }
    return images, true;
  }

  const AssistantTag: string := "ASSISTANT:"

  /** A caption that starts with "ASSISTANT:" loses the tag and the whitespace
      around what follows it; any other caption is left as it is. */
  function StripAssistant(caption: string): (r: string)
    ensures !StartsWith(caption, AssistantTag) ==> r == caption
    ensures StartsWith(caption, AssistantTag) ==> NoEdgeSpace(r) && |r| <= |caption| - |AssistantTag|
  {
    if StartsWith(caption, AssistantTag) then Strip(caption[|AssistantTag|..]) else caption
  }

  /** The model's reply after the tag comes back exactly, whatever whitespace
      surrounds it. */
  lemma StripAssistantReply(w1: string, reply: string, w2: string)
    requires AllSpace(w1) && AllSpace(w2) && NoEdgeSpace(reply)
    ensures StripAssistant(AssistantTag + w1 + reply + w2) == reply
  {
    var c := AssistantTag + w1 + reply + w2;
    assert c[..|AssistantTag|] == AssistantTag;
    assert c[|AssistantTag|..] == w1 + reply + w2;
    StripPadded(w1, reply, w2);
  }

  /** `os.path.splitext(image_path)[0] + '.txt'`. */
  function CaptionPath(imagePath: string): string {
    SplitExt(imagePath).root + ".txt"
  }

  /** The caption file sits beside the image: its path is the image's with the
      extension replaced by ".txt", and ".txt" is what `splitext` finds on it. */
  lemma CaptionPathOfImage(stem: string, ext: string)
    requires IsExtension(ext) && BaseHasNonDot(stem)
    ensures CaptionPath(stem + ext) == stem + ".txt"
    ensures SplitExt(CaptionPath(stem + ext)) == RootExt(stem, ".txt")
  {
    SplitExtOfExtended(stem, ext);
    SplitExtOfExtended(stem, ".txt");
  }
}
