/** metrics/img_quality.py: the comparison of decoded pictures with their
    reference pictures. The candidates of a directory are the files that end
    in the output format; each candidate's stem selects the first reference
    of the directory listing; `compare_img` rejects pairs that do not line
    up and averages the per-channel scores; `main` writes one CSV row per
    compared pair, flagged as corrupted when a score falls below its
    threshold. PSNR, SSIM, picture decoding, mode conversion, the directory
    walk and the regular-expression search are parameters. */
module ImgQuality {
  import opened Bytes

  /** An opened picture, as the imaging library gives it. */
  type Img

  /** A pixel array, as `np.asarray` gives it. */
  type Arr

  // ------------------------------------------------------------ the CSV schema

  /** A CSV cell: a string, the `corrupted` flag or a score. */
  datatype Cell = Text(s: string) | Flag(b: bool) | Score(x: real)

  /** The per-channel column names; the loops of lines 72-76 and 79-83
      append these names themselves to the row, not the channels' scores. */
  const SSIM_CHANNELS: seq<string> := ["SSIM-R", "SSIM-G", "SSIM-B"]
  const PSNR_CHANNELS: seq<string> := ["PSNR-R", "PSNR-G", "PSNR-B"]

  /** The columns of the CSV header, in the order `main` appends them. */
  function Header(psnrOnly: bool, channels: bool): seq<string>
  {
    ["image", "corrupted"] + SsimColumns(psnrOnly, channels) + PsnrColumns(channels)
    + ["reference path", "output path"]
  }

  function SsimColumns(psnrOnly: bool, channels: bool): seq<string>
  {
    if psnrOnly then [] else ["SSIM"] + (if channels then SSIM_CHANNELS else [])
  }

  function PsnrColumns(channels: bool): seq<string>
  {
    ["PSNR"] + (if channels then PSNR_CHANNELS else [])
  }

  /** Where the overall PSNR sits: after the two leading columns and the
      SSIM columns. */
  function PsnrColumn(psnrOnly: bool, channels: bool): nat
  {
    2 + (if psnrOnly then 0 else 1 + (if channels then 3 else 0))
  }

  /** The number of columns of the header. */
  function Width(psnrOnly: bool, channels: bool): nat
  {
    PsnrColumn(psnrOnly, channels) + 3 + (if channels then 3 else 0)
  }

  /** Every row has w cells. */
  predicate RowsFit(rows: seq<seq<Cell>>, w: nat)
  {
    forall k :: 0 <= k < |rows| ==> |rows[k]| == w
  }

  lemma RowsFitAppend(a: seq<seq<Cell>>, b: seq<seq<Cell>>, w: nat)
    requires RowsFit(a, w) && RowsFit(b, w)
    ensures RowsFit(a + b, w)
  {
    forall k | 0 <= k < |a + b|
      ensures |(a + b)[k]| == w
    {
      if k >= |a| {
        assert (a + b)[k] == b[k - |a|];
      }
    }
  }

  /** The header's shape: its width, its first and last two columns, and
      where the overall PSNR and SSIM sit. */
  lemma HeaderShape(psnrOnly: bool, channels: bool)
    ensures var h := Header(psnrOnly, channels); var p := PsnrColumn(psnrOnly, channels);
      |h| == p + 3 + (if channels then 3 else 0) == Width(psnrOnly, channels)
      && h[0] == "image" && h[1] == "corrupted"
      && h[|h| - 2] == "reference path" && h[|h| - 1] == "output path"
      && h[p] == "PSNR" && (!psnrOnly ==> h[2] == "SSIM")
      && ("SSIM" in h <==> !psnrOnly)
  {
    var h := Header(psnrOnly, channels);
    var p := PsnrColumn(psnrOnly, channels);
    Parts(["image", "corrupted"], SsimColumns(psnrOnly, channels), PsnrColumns(channels),
          ["reference path", "output path"]);
    if psnrOnly {
      assert h[p] == "PSNR";
      assert forall k :: 0 <= k < |h| ==> h[k] != "SSIM";
    } else {
      assert h[2] == "SSIM";
      assert h[p] == "PSNR";
    }
  }

  /** The header assembled by appending to a list. */
  method BuildHeader(psnrOnly: bool, channels: bool) returns (h: seq<string>)
    ensures h == Header(psnrOnly, channels)
  {
    h := ["image", "corrupted"];
    if !psnrOnly {
      h := h + ["SSIM"];
      if channels {
        h := h + SSIM_CHANNELS;
      }
    }
    h := h + ["PSNR"];
    if channels {
      h := h + PSNR_CHANNELS;
    }
    h := h + ["reference path", "output path"];
  }

  /** The scores `compare_img` returns: the reference's mode, the overall
      PSNR, the overall SSIM unless only PSNR is asked for, and the
      per-channel scores in channel order (empty for a one-letter mode). */
  datatype Scores = Scores(mode: string, psnr: real, ssim: Option<real>,
                           psnrChannels: seq<real>, ssimChannels: seq<real>)

  /** The row of a compared pair, as `main` assembles it. */
  function Row(refName: string, corrupted: bool, r: Scores, psnrOnly: bool, channels: bool,
               refPath: string, outPath: string): seq<Cell>
    requires psnrOnly || r.ssim.Some?
  {
    [Text(refName), Flag(corrupted)] + SsimCells(r, psnrOnly, channels) + PsnrCells(r, channels)
    + [Text(refPath), Text(outPath)]
  }

  function SsimCells(r: Scores, psnrOnly: bool, channels: bool): (c: seq<Cell>)
    requires psnrOnly || r.ssim.Some?
  {
    if psnrOnly then [] else [Score(r.ssim.value)] + (if channels then TextCells(SSIM_CHANNELS) else [])
  }

  function PsnrCells(r: Scores, channels: bool): seq<Cell>
  {
    [Score(r.psnr)] + (if channels then TextCells(PSNR_CHANNELS) else [])
  }

  function TextCells(ss: seq<string>): (r: seq<Cell>)
    ensures |r| == |ss| && forall k :: 0 <= k < |ss| ==> r[k] == Text(ss[k])
  {
    if ss == [] then [] else [Text(ss[0])] + TextCells(ss[1..])
  }

  /** Indexing into a concatenation of four parts. */
  lemma Parts<T>(a: seq<T>, b: seq<T>, c: seq<T>, d: seq<T>)
    ensures var x := a + b + c + d;
      |x| == |a| + |b| + |c| + |d|
      && (forall k :: 0 <= k < |a| ==> x[k] == a[k])
      && (forall k :: 0 <= k < |b| ==> x[|a| + k] == b[k])
      && (forall k :: 0 <= k < |c| ==> x[|a| + |b| + k] == c[k])
      && (forall k :: 0 <= k < |d| ==> x[|a| + |b| + |c| + k] == d[k])
  {
  }

  /** Under the SSIM and PSNR columns of the header, the row holds the
      overall score and then, per channel, the column's own name. */
  lemma CellsMatchColumns(r: Scores, psnrOnly: bool, channels: bool)
    requires psnrOnly || r.ssim.Some?
    ensures var hs := SsimColumns(psnrOnly, channels); var rs := SsimCells(r, psnrOnly, channels);
      |hs| == |rs| && (!psnrOnly ==> hs[0] == "SSIM" && rs[0] == Score(r.ssim.value))
      && forall k :: 0 < k < |hs| ==> rs[k] == Text(hs[k])
    ensures var hp := PsnrColumns(channels); var rp := PsnrCells(r, channels);
      |hp| == |rp| && hp[0] == "PSNR" && rp[0] == Score(r.psnr)
      && forall k :: 0 < k < |hp| ==> rp[k] == Text(hp[k])
  {
  }

  /** Every row lines up with the header: the same width, the reference's
      name under "image", the flag under "corrupted", the overall scores
      under "SSIM" and "PSNR", under each per-channel column that column's
      own name, and the two paths under the last two columns. */
  lemma RowMatchesHeader(refName: string, corrupted: bool, r: Scores, psnrOnly: bool, channels: bool,
                         refPath: string, outPath: string)
    requires psnrOnly || r.ssim.Some?
    ensures var h := Header(psnrOnly, channels); var p := PsnrColumn(psnrOnly, channels);
      var row := Row(refName, corrupted, r, psnrOnly, channels, refPath, outPath);
      |row| == |h| > p + 2
      && h[0] == "image" && row[0] == Text(refName) && h[1] == "corrupted" && row[1] == Flag(corrupted)
      && h[p] == "PSNR" && row[p] == Score(r.psnr)
      && (!psnrOnly ==> h[2] == "SSIM" && row[2] == Score(r.ssim.value))
      && (forall k :: 2 <= k < |h| - 2 && k != 2 && k != p ==> row[k] == Text(h[k]))
      && h[|h| - 2] == "reference path" && row[|h| - 2] == Text(refPath)
      && h[|h| - 1] == "output path" && row[|h| - 1] == Text(outPath)
  {
    RowLeadCells(refName, corrupted, r, psnrOnly, channels, refPath, outPath);
    RowTrailCells(refName, corrupted, r, psnrOnly, channels, refPath, outPath);
    RowChannelCells(refName, corrupted, r, psnrOnly, channels, refPath, outPath);
  }

  /** A row has as many cells as the header has columns. */
  lemma RowWidth(refName: string, corrupted: bool, r: Scores, psnrOnly: bool, channels: bool,
                 refPath: string, outPath: string)
    requires psnrOnly || r.ssim.Some?
    ensures |Row(refName, corrupted, r, psnrOnly, channels, refPath, outPath)| == Width(psnrOnly, channels)
  {
    CellsMatchColumns(r, psnrOnly, channels);
  }

  lemma RowLeadCells(refName: string, corrupted: bool, r: Scores, psnrOnly: bool, channels: bool,
                     refPath: string, outPath: string)
    requires psnrOnly || r.ssim.Some?
    ensures var h := Header(psnrOnly, channels); var p := PsnrColumn(psnrOnly, channels);
      var row := Row(refName, corrupted, r, psnrOnly, channels, refPath, outPath);
      |row| == |h| > p + 2
      && h[0] == "image" && row[0] == Text(refName) && h[1] == "corrupted" && row[1] == Flag(corrupted)
      && h[p] == "PSNR" && row[p] == Score(r.psnr)
      && (!psnrOnly ==> h[2] == "SSIM" && row[2] == Score(r.ssim.value))
  {
    var hs := SsimColumns(psnrOnly, channels);
    var hp := PsnrColumns(channels);
    var rs := SsimCells(r, psnrOnly, channels);
    var rp := PsnrCells(r, channels);
    CellsMatchColumns(r, psnrOnly, channels);
    Parts(["image", "corrupted"], hs, hp, ["reference path", "output path"]);
    Parts([Text(refName), Flag(corrupted)], rs, rp, [Text(refPath), Text(outPath)]);
    assert |hs| == PsnrColumn(psnrOnly, channels) - 2;
  }

  lemma RowTrailCells(refName: string, corrupted: bool, r: Scores, psnrOnly: bool, channels: bool,
                      refPath: string, outPath: string)
    requires psnrOnly || r.ssim.Some?
    ensures var h := Header(psnrOnly, channels);
      var row := Row(refName, corrupted, r, psnrOnly, channels, refPath, outPath);
      |row| == |h| >= 2
      && h[|h| - 2] == "reference path" && row[|h| - 2] == Text(refPath)
      && h[|h| - 1] == "output path" && row[|h| - 1] == Text(outPath)
  {
    var hs := SsimColumns(psnrOnly, channels);
    var hp := PsnrColumns(channels);
    var rs := SsimCells(r, psnrOnly, channels);
    var rp := PsnrCells(r, channels);
    CellsMatchColumns(r, psnrOnly, channels);
    Parts(["image", "corrupted"], hs, hp, ["reference path", "output path"]);
    Parts([Text(refName), Flag(corrupted)], rs, rp, [Text(refPath), Text(outPath)]);
    assert |hs| == PsnrColumn(psnrOnly, channels) - 2;
  }

  lemma RowChannelCells(refName: string, corrupted: bool, r: Scores, psnrOnly: bool, channels: bool,
                        refPath: string, outPath: string)
    requires psnrOnly || r.ssim.Some?
    ensures var h := Header(psnrOnly, channels); var p := PsnrColumn(psnrOnly, channels);
      var row := Row(refName, corrupted, r, psnrOnly, channels, refPath, outPath);
      |row| == |h| && forall k :: 2 <= k < |h| - 2 && k != 2 && k != p ==> row[k] == Text(h[k])
  {
    var hs := SsimColumns(psnrOnly, channels);
    var hp := PsnrColumns(channels);
    var rs := SsimCells(r, psnrOnly, channels);
    var rp := PsnrCells(r, channels);
    var h := Header(psnrOnly, channels);
    var row := Row(refName, corrupted, r, psnrOnly, channels, refPath, outPath);
    CellsMatchColumns(r, psnrOnly, channels);
    Parts(["image", "corrupted"], hs, hp, ["reference path", "output path"]);
    Parts([Text(refName), Flag(corrupted)], rs, rp, [Text(refPath), Text(outPath)]);
    forall k | 2 <= k < |h| - 2 && k != 2 && k != PsnrColumn(psnrOnly, channels)
      ensures row[k] == Text(h[k])
    {
      if k < 2 + |hs| {
        assert h[k] == hs[k - 2] && row[k] == rs[k - 2];
      } else {
        assert h[k] == hp[k - 2 - |hs|] && row[k] == rp[k - 2 - |hs|];
      }
    }
  }

  /** Lines 68-85: the row assembled by appending, the per-channel labels by
      two loops over the channel names. */
  method BuildRow(refName: string, corrupted: bool, r: Scores, psnrOnly: bool, channels: bool,
                  refPath: string, outPath: string) returns (row: seq<Cell>)
    requires psnrOnly || r.ssim.Some?
    ensures row == Row(refName, corrupted, r, psnrOnly, channels, refPath, outPath)
  {
    row := [Text(refName), Flag(corrupted)];
    if !psnrOnly {
      row := row + [Score(r.ssim.value)];
      if channels {
        row := AppendLabels(row, SSIM_CHANNELS);
      }
    }
    row := row + [Score(r.psnr)];
    if channels {
      row := AppendLabels(row, PSNR_CHANNELS);
    }
    row := row + [Text(refPath), Text(outPath)];
  }

  /** `for channel in [...]: row.append(channel)`. */
  method AppendLabels(row0: seq<Cell>, labels: seq<string>) returns (row: seq<Cell>)
    ensures row == row0 + TextCells(labels)
  {
    row := row0;
    var i := 0;
    while i < |labels|
      invariant 0 <= i <= |labels|
      invariant row == row0 + TextCells(labels[..i])
    {
      TextCellsAppend(labels[..i], labels[i]);
      assert labels[..i + 1] == labels[..i] + [labels[i]];
      row := row + [Text(labels[i])];
      i := i + 1;
    }
    assert labels[..i] == labels;
  }

  lemma TextCellsAppend(ss: seq<string>, s: string)
    ensures TextCells(ss + [s]) == TextCells(ss) + [Text(s)]
  {
    var a := TextCells(ss + [s]);
    var b := TextCells(ss) + [Text(s)];
    assert |a| == |b|;
    forall k | 0 <= k < |a|
      ensures a[k] == b[k]
    {
      assert (ss + [s])[k] == if k < |ss| then ss[k] else s;
    }
  }

  // ------------------------------------------------------------ candidates, stems, references

  /** Python's `x[-n:]` for n >= 0: the last n characters, the whole string
      when n exceeds its length, and also the whole string when n is 0
      (`x[-0:]` is `x[0:]`). */
  function Tail(x: string, n: nat): string
  {
    if n == 0 || n >= |x| then x else x[|x| - n..]
  }

  /** Line 40: a file is a candidate when `x[-len(outFmt):] == outFmt`. */
  predicate IsCandidate(name: string, outFmt: string)
  {
    Tail(name, |outFmt|) == outFmt
  }

  /** With a non-empty format a file is a candidate exactly when its name
      ends in the format; with an empty one only the empty name is. */
  lemma CandidateMeaning(name: string, outFmt: string)
    ensures outFmt != [] ==>
      (IsCandidate(name, outFmt) <==> |outFmt| <= |name| && name[|name| - |outFmt|..] == outFmt)
    ensures outFmt == [] ==> (IsCandidate(name, outFmt) <==> name == [])
  {
  }

  /** Line 40: the candidates of a directory, in listing order. */
  function Candidates(files: seq<string>, outFmt: string): (r: seq<string>)
    ensures |r| <= |files|
    ensures forall k :: 0 <= k < |r| ==> r[k] in files && IsCandidate(r[k], outFmt)
    ensures forall f :: f in files && IsCandidate(f, outFmt) ==> f in r
  {
    if files == [] then []
    else (if IsCandidate(files[0], outFmt) then [files[0]] else []) + Candidates(files[1..], outFmt)
  }

  /** Line 43: `name[:-(len(outFmt) + 4)]`, the name without the format and
      four more characters (the reference's own extension), empty when the
      name is not longer than that. */
  function Stem(name: string, outFmt: string): (r: string)
    ensures |r| == if |outFmt| + 4 >= |name| then 0 else |name| - |outFmt| - 4
    ensures r <= name
  {
    if |outFmt| + 4 >= |name| then [] else name[..|name| - |outFmt| - 4]
  }

  /** A stem followed by its four dropped characters and the format gives
      the candidate's name back. */
  lemma StemRoundTrip(stem: string, ext: string, outFmt: string)
    requires |ext| == 4 && outFmt != []
    ensures IsCandidate(stem + ext + outFmt, outFmt)
    ensures Stem(stem + ext + outFmt, outFmt) == stem
  {
    var name := stem + ext + outFmt;
    assert name[|name| - |outFmt|..] == outFmt;
    assert name[..|name| - |outFmt| - 4] == stem;
  }

  predicate StartsWith(f: string, stem: string)
  {
    stem <= f
  }

  /** Lines 45-55: the reference is the first entry of the listing that
      starts with the stem and in which the reference pattern is found. */
  predicate IsReference(f: string, stem: string, search: string -> bool)
  {
    StartsWith(f, stem) && search(f)
  }

  /** Lines 46-54: the list of entries starting with the stem, then a loop
      that stops at the first one the pattern is found in. The reference
      found is the first entry of the listing that qualifies, and none is
      found exactly when no entry qualifies. */
  method FindReference(listing: seq<string>, stem: string, search: string -> bool)
    returns (ref: Option<string>)
    ensures ref.None? <==> forall k :: 0 <= k < |listing| ==> !IsReference(listing[k], stem, search)
    ensures ref.Some? ==>
      exists k :: 0 <= k < |listing| && listing[k] == ref.value
        && IsReference(listing[k], stem, search)
        && forall j :: 0 <= j < k ==> !IsReference(listing[j], stem, search)
  {
    var matches := Matching(listing, stem);
    ref := None;
    var i := 0;
    while i < |matches|
      invariant 0 <= i <= |matches|
      invariant forall j :: 0 <= j < i ==> !search(matches[j])
    {
      if search(matches[i]) {
        ref := Some(matches[i]);
        MatchingFirst(listing, stem, search, i);
        return;
      }
      i := i + 1;
    }
    MatchingNone(listing, stem, search);
  }

  /** Line 46: the entries of the listing that start with the stem. */
  function Matching(listing: seq<string>, stem: string): (r: seq<string>)
    ensures forall k :: 0 <= k < |r| ==> StartsWith(r[k], stem)
  {
    if listing == [] then []
    else (if StartsWith(listing[0], stem) then [listing[0]] else []) + Matching(listing[1..], stem)
  }

  /** The first match the pattern is found in is the first qualifying entry
      of the whole listing. */
  lemma {:induction false} MatchingFirst(listing: seq<string>, stem: string, search: string -> bool, i: nat)
    requires i < |Matching(listing, stem)| && search(Matching(listing, stem)[i])
    requires forall j :: 0 <= j < i ==> !search(Matching(listing, stem)[j])
    ensures exists k ::
      0 <= k < |listing| && listing[k] == Matching(listing, stem)[i]
      && IsReference(listing[k], stem, search)
      && forall j :: 0 <= j < k ==> !IsReference(listing[j], stem, search)
    decreases |listing|
  {
    var m := Matching(listing, stem);
    var rest := Matching(listing[1..], stem);
    if StartsWith(listing[0], stem) {
      assert m == [listing[0]] + rest;
      if i == 0 {
        assert listing[0] == m[0];
      } else {
        assert !search(listing[0]) by { assert m[0] == listing[0]; }
        forall j | 0 <= j < i - 1
          ensures !search(rest[j])
        {
          assert rest[j] == m[j + 1];
        }
        assert rest[i - 1] == m[i];
        MatchingFirst(listing[1..], stem, search, i - 1);
        var k :| 0 <= k < |listing[1..]| && listing[1..][k] == rest[i - 1]
          && IsReference(listing[1..][k], stem, search)
          && forall j :: 0 <= j < k ==> !IsReference(listing[1..][j], stem, search);
        assert listing[k + 1] == m[i];
        forall j | 0 <= j < k + 1
          ensures !IsReference(listing[j], stem, search)
        {
          if j > 0 {
            assert listing[j] == listing[1..][j - 1];
          }
        }
      }
    } else {
      assert m == rest;
      MatchingFirst(listing[1..], stem, search, i);
      var k :| 0 <= k < |listing[1..]| && listing[1..][k] == rest[i]
        && IsReference(listing[1..][k], stem, search)
        && forall j :: 0 <= j < k ==> !IsReference(listing[1..][j], stem, search);
      assert listing[k + 1] == m[i];
      forall j | 0 <= j < k + 1
        ensures !IsReference(listing[j], stem, search)
      {
        if j > 0 {
          assert listing[j] == listing[1..][j - 1];
        }
      }
    }
  }

  /** When the pattern is found in no match, no entry qualifies. */
  lemma {:induction false} MatchingNone(listing: seq<string>, stem: string, search: string -> bool)
    requires forall j :: 0 <= j < |Matching(listing, stem)| ==> !search(Matching(listing, stem)[j])
    ensures forall k :: 0 <= k < |listing| ==> !IsReference(listing[k], stem, search)
    decreases |listing|
  {
    if listing != [] {
      var m := Matching(listing, stem);
      var rest := Matching(listing[1..], stem);
      var head := if StartsWith(listing[0], stem) then [listing[0]] else [];
      assert m == head + rest;
      forall j | 0 <= j < |rest|
        ensures !search(rest[j])
      {
        assert rest[j] == m[|head| + j];
      }
      MatchingNone(listing[1..], stem, search);
      if StartsWith(listing[0], stem) {
        assert m[0] == listing[0];
      }
      forall k | 0 < k < |listing|
        ensures !IsReference(listing[k], stem, search)
      {
        assert listing[k] == listing[1..][k - 1];
      }
    }
  }

  // ------------------------------------------------------------ compare_img

  /** The picture library as `compare_img` uses it: the size and the mode of
      an opened picture, the conversion to a mode, the pixel array (None
      when `np.asarray` raises), an array's shape, the plane of one channel
      (None when the array has no such axis) and the two metrics. */
  datatype Library = Library(
    size: Img -> (int, int),
    mode: Img -> string,
    convert: (Img, string) -> Img,
    asArray: Img -> Option<Arr>,
    shape: Arr -> seq<int>,
    plane: (Arr, nat) -> Option<Arr>,
    psnr: (Arr, Arr) -> real,
    ssim: (Arr, Arr) -> real)

  /** The exceptions `compare_img` raises. */
  datatype Failure =
    | SizeMismatch          // line 101
    | ReferenceUnreadable   // line 112
    | OutputUnreadable      // line 116
    | DimensionMismatch     // line 123
    | NoSuchChannel         // `refPixels[:, :, i]` on an array without a third axis
    | NoChannels            // `psnrSum / len(mode)` with an empty mode

  datatype Compared = Compared(scores: Scores) | Raised(failure: Failure)

  /** Lines 103-107: the output converted to the reference's mode when the
      modes differ. */
  function Aligned(lib: Library, ref: Img, out: Img): Img
  {
    if lib.mode(out) != lib.mode(ref) then lib.convert(out, lib.mode(ref)) else out
  }

  /** The per-channel scores of the first n channels, in order; None when a
      plane is missing. */
  function ChannelScores(lib: Library, ra: Arr, oa: Arr, n: nat, psnrOnly: bool)
    : (r: Option<(seq<real>, seq<real>)>)
    ensures r.Some? ==> |r.value.0| == n && |r.value.1| == (if psnrOnly then 0 else n)
  {
    if n == 0 then Some(([], []))
    else
      var before := ChannelScores(lib, ra, oa, n - 1, psnrOnly);
      var a := lib.plane(ra, n - 1);
      var b := lib.plane(oa, n - 1);
      if before.None? || a.None? || b.None? then None
      else
        var p := lib.psnr(a.value, b.value);
        Some((before.value.0 + [p],
              if psnrOnly then before.value.1 else before.value.1 + [lib.ssim(a.value, b.value)]))
  }

  function Sum(xs: seq<real>): real
  {
    if xs == [] then 0.0 else Sum(xs[..|xs| - 1]) + xs[|xs| - 1]
  }

  function Mean(xs: seq<real>): real
    requires xs != []
  {
    Sum(xs) / (|xs| as real)
  }

  /** What `compare_img` returns or raises. */
  function Compare(lib: Library, ref: Img, out0: Img, psnrOnly: bool): (r: Compared)
    ensures r.Compared? ==> r.scores.mode == lib.mode(ref) && (r.scores.ssim.Some? <==> !psnrOnly)
  {
    var mode := lib.mode(ref);
    var out := Aligned(lib, ref, out0);
    if lib.size(out0) != lib.size(ref) then Raised(SizeMismatch)
    else if lib.asArray(ref).None? then Raised(ReferenceUnreadable)
    else if lib.asArray(out).None? then Raised(OutputUnreadable)
    else
      var ra := lib.asArray(ref).value;
      var oa := lib.asArray(out).value;
      if lib.shape(oa) != lib.shape(ra) then Raised(DimensionMismatch)
      else if |mode| == 1 then
        Compared(Scores(mode, lib.psnr(ra, oa), if psnrOnly then None else Some(lib.ssim(ra, oa)), [], []))
      else
        var cs := ChannelScores(lib, ra, oa, |mode|, psnrOnly);
        if cs.None? then Raised(NoSuchChannel)
        else if |mode| == 0 then Raised(NoChannels)
        else
          Compared(Scores(mode, Mean(cs.value.0), if psnrOnly then None else Some(Mean(cs.value.1)),
                          cs.value.0, cs.value.1))
  }

  /** Lines 90-147. The checks in order, then either the direct metrics of
      a one-channel picture or the per-channel loop summing the scores. */
  method CompareImg(lib: Library, refImg: Img, outImg: Img, psnrOnly: bool)
    returns (r: Compared)
    ensures r == Compare(lib, refImg, outImg, psnrOnly)
  {
    if lib.size(outImg) != lib.size(refImg) {
      return Raised(SizeMismatch);
    }
    var out := outImg;
    if lib.mode(out) != lib.mode(refImg) {
      out := lib.convert(out, lib.mode(refImg));
    }
    var refPixels := lib.asArray(refImg);
    if refPixels.None? {
      return Raised(ReferenceUnreadable);
    }
    var outPixels := lib.asArray(out);
    if outPixels.None? {
      return Raised(OutputUnreadable);
    }
    var ra, oa := refPixels.value, outPixels.value;
    if lib.shape(oa) != lib.shape(ra) {
      return Raised(DimensionMismatch);
    }
    var mode := lib.mode(refImg);
    if |mode| == 1 {
      var ssim := if psnrOnly then None else Some(lib.ssim(ra, oa));
      return Compared(Scores(mode, lib.psnr(ra, oa), ssim, [], []));
    }
    var psnrSum, ssimSum := 0.0, 0.0;
    var psnrs, ssims := [], [];
    var i := 0;
    while i < |mode|
      invariant 0 <= i <= |mode|
      invariant ChannelScores(lib, ra, oa, i, psnrOnly) == Some((psnrs, ssims))
      invariant psnrSum == Sum(psnrs) && ssimSum == Sum(ssims)
    {
      var a := lib.plane(ra, i);
      var b := lib.plane(oa, i);
      if a.None? || b.None? {
        NoPlaneStops(lib, ra, oa, i, |mode|, psnrOnly);
        return Raised(NoSuchChannel);
      }
      var psnr := lib.psnr(a.value, b.value);
      psnrs := psnrs + [psnr];
      assert psnrs[..|psnrs| - 1] == psnrs[..i];
      psnrSum := psnrSum + psnr;
      if !psnrOnly {
        var ssim := lib.ssim(a.value, b.value);
        ssims := ssims + [ssim];
        assert ssims[..|ssims| - 1] == ssims[..i];
        ssimSum := ssimSum + ssim;
      }
      i := i + 1;
    }
    if |mode| == 0 {
      return Raised(NoChannels);
    }
    var ssim := if psnrOnly then None else Some(ssimSum / (|mode| as real));
    r := Compared(Scores(mode, psnrSum / (|mode| as real), ssim, psnrs, ssims));
  }

  /** A missing plane at channel i leaves no scores for any later count. */
  lemma {:induction false} NoPlaneStops(lib: Library, ra: Arr, oa: Arr, i: nat, n: nat,
                                                  psnrOnly: bool)
    requires i < n && (lib.plane(ra, i).None? || lib.plane(oa, i).None?)
    ensures ChannelScores(lib, ra, oa, n, psnrOnly).None?
    decreases n
  {
    if i < n - 1 {
      NoPlaneStops(lib, ra, oa, i, n - 1, psnrOnly);
    }
  }

  /** Which exception `compare_img` raises, in terms of the two pictures:
      sizes first, then the two arrays, then their shapes; and every
      one-letter mode with matching arrays gives scores. */
  lemma CompareFailures(lib: Library, ref: Img, out: Img, psnrOnly: bool)
    ensures var r := Compare(lib, ref, out, psnrOnly);
      (r == Raised(SizeMismatch) <==> lib.size(out) != lib.size(ref))
      && (r == Raised(ReferenceUnreadable) <==> lib.size(out) == lib.size(ref) && lib.asArray(ref).None?)
      && (r == Raised(OutputUnreadable) <==>
            lib.size(out) == lib.size(ref) && lib.asArray(ref).Some?
            && lib.asArray(Aligned(lib, ref, out)).None?)
      && (r.Compared? ==>
            lib.size(out) == lib.size(ref)
            && lib.shape(lib.asArray(ref).value) == lib.shape(lib.asArray(Aligned(lib, ref, out)).value))
      && (lib.mode(ref) == [] ==> r.Raised?)
      && (r == Raised(NoChannels) ==> lib.mode(ref) == [])
  {
    var r := Compare(lib, ref, out, psnrOnly);
    if lib.mode(ref) == [] && r.Raised? && lib.size(out) == lib.size(ref)
       && lib.asArray(ref).Some? && lib.asArray(Aligned(lib, ref, out)).Some? {
      var ra := lib.asArray(ref).value;
      var oa := lib.asArray(Aligned(lib, ref, out)).value;
      if lib.shape(oa) == lib.shape(ra) {
        assert ChannelScores(lib, ra, oa, 0, psnrOnly).Some?;
      }
    }
  }

  /** For a picture of several channels the overall scores are the means of
      the per-channel scores, one per letter of the mode. */
  lemma CompareAverages(lib: Library, ref: Img, out: Img, psnrOnly: bool)
    requires Compare(lib, ref, out, psnrOnly).Compared? && |lib.mode(ref)| != 1
    ensures var s := Compare(lib, ref, out, psnrOnly).scores;
      |s.psnrChannels| == |lib.mode(ref)| > 0 && s.psnr == Mean(s.psnrChannels)
      && (!psnrOnly ==> |s.ssimChannels| == |lib.mode(ref)| && s.ssim.value == Mean(s.ssimChannels))
  {
  }

  /** A mean is at least any bound every term is at least. */
  lemma {:induction false} SumAtLeast(xs: seq<real>, t: real)
    requires forall k :: 0 <= k < |xs| ==> xs[k] >= t
    ensures Sum(xs) >= (|xs| as real) * t
    decreases |xs|
  {
    if xs != [] {
      SumAtLeast(xs[..|xs| - 1], t);
    }
  }

  lemma MeanAtLeast(xs: seq<real>, t: real)
    requires xs != [] && forall k :: 0 <= k < |xs| ==> xs[k] >= t
    ensures Mean(xs) >= t
  {
    SumAtLeast(xs, t);
  }

  // ------------------------------------------------------------ the corruption flag

  /** Lines 62-64: corrupted when the PSNR is below its threshold or, unless
      only PSNR is computed, the SSIM below its own; both strictly. */
  predicate Corrupted(s: Scores, psnrOnly: bool, psnrThreshold: real, ssimThreshold: real)
    requires psnrOnly || s.ssim.Some?
  {
    s.psnr < psnrThreshold || (!psnrOnly && s.ssim.value < ssimThreshold)
  }

  /** Scores that reach their thresholds exactly are not corrupted, higher
      scores never turn a clean pair corrupted, and in PSNR-only mode the
      SSIM plays no part. */
  lemma CorruptedMeaning(s: Scores, t: Scores, psnrOnly: bool, pt: real, st: real)
    requires psnrOnly || (s.ssim.Some? && t.ssim.Some?)
    ensures s.psnr == pt && (!psnrOnly ==> s.ssim.value == st) ==> !Corrupted(s, psnrOnly, pt, st)
    ensures (!Corrupted(s, psnrOnly, pt, st) && t.psnr >= s.psnr
             && (!psnrOnly ==> t.ssim.value >= s.ssim.value)) ==> !Corrupted(t, psnrOnly, pt, st)
    ensures psnrOnly ==> (Corrupted(s, psnrOnly, pt, st) <==> s.psnr < pt)
  {
  }

  /** A picture of several channels whose every channel reaches the
      thresholds is not flagged. */
  lemma CleanChannelsNotCorrupted(lib: Library, ref: Img, out: Img, psnrOnly: bool,
                                            pt: real, st: real)
    requires Compare(lib, ref, out, psnrOnly).Compared? && |lib.mode(ref)| != 1
    requires var s := Compare(lib, ref, out, psnrOnly).scores;
      (forall k :: 0 <= k < |s.psnrChannels| ==> s.psnrChannels[k] >= pt)
      && (forall k :: 0 <= k < |s.ssimChannels| ==> s.ssimChannels[k] >= st)
    ensures !Corrupted(Compare(lib, ref, out, psnrOnly).scores, psnrOnly, pt, st)
  {
    var s := Compare(lib, ref, out, psnrOnly).scores;
    CompareAverages(lib, ref, out, psnrOnly);
    MeanAtLeast(s.psnrChannels, pt);
    if !psnrOnly {
      MeanAtLeast(s.ssimChannels, st);
    }
  }

  // ------------------------------------------------------------ main

  /** The command line as `main` reads it; `search` is the compiled
      reference pattern's `search`, found or not. */
  datatype Settings = Settings(outFmt: string, search: string -> bool, channels: bool, psnrOnly: bool,
                               psnrThreshold: real, ssimThreshold: real)

  /** The file system as `main` sees it: the paths `os.path.isfile` accepts
      and the pictures `Image.open` can open, by path. */
  datatype Files = Files(regular: set<string>, pictures: map<string, Img>)

  /** `os.path.join` of two POSIX path components. */
  function Join(dir: string, name: string): (r: string)
    ensures |r| >= |name| && r[|r| - |name|..] == name
  {
    if |name| > 0 && name[0] == '/' then name
    else if dir == [] || dir[|dir| - 1] == '/' then dir + name
    else dir + "/" + name
  }

  /** One directory of the walk: its path, its files and `os.listdir`. */
  datatype Dir = Dir(path: string, files: seq<string>, listing: seq<string>)

  /** The first qualifying entry of the listing. */
  function FirstReference(listing: seq<string>, stem: string, search: string -> bool): Option<string>
  {
    if listing == [] then None
    else if IsReference(listing[0], stem, search) then Some(listing[0])
    else FirstReference(listing[1..], stem, search)
  }

  /** The row written for one candidate, or None when no reference is found
      (a warning, line 88) or `compare_img` raises (a warning, line 60). */
  function EntryRow(s: Settings, fsys: Files, compare: (Img, Img) -> Compared, d: Dir, name: string)
    : Option<seq<Cell>>
  {
    var ref := FirstReference(d.listing, Stem(name, s.outFmt), s.search);
    var outPath := Join(d.path, name);
    if ref.None? || Join(d.path, ref.value) !in fsys.regular then None
    else
      var refPath := Join(d.path, ref.value);
      // `Image.open` raises inside the try of line 59: a warning, no row
      if refPath !in fsys.pictures || outPath !in fsys.pictures then None
      else
        var c := compare(fsys.pictures[refPath], fsys.pictures[outPath]);
        // a missing "SSIM" key would raise outside the try; compare_img always sets it
        if c.Raised? || !(s.psnrOnly || c.scores.ssim.Some?) then None
        else
          Some(Row(ref.value, Corrupted(c.scores, s.psnrOnly, s.psnrThreshold, s.ssimThreshold), c.scores,
                   s.psnrOnly, s.channels, refPath, outPath))
  }

  /** The rows of the first n candidates of a directory. */
  function DirRows(s: Settings, fsys: Files, compare: (Img, Img) -> Compared, d: Dir, names: seq<string>,
                             n: nat): seq<seq<Cell>>
    requires n <= |names|
  {
    if n == 0 then []
    else
      var r := EntryRow(s, fsys, compare, d, names[n - 1]);
      DirRows(s, fsys, compare, d, names, n - 1) + (if r.Some? then [r.value] else [])
  }

  /** The rows of one directory: those of all its candidates. */
  function DirRowsOf(s: Settings, fsys: Files, compare: (Img, Img) -> Compared, d: Dir): seq<seq<Cell>>
  {
    var names := Candidates(d.files, s.outFmt);
    DirRows(s, fsys, compare, d, names, |names|)
  }

  /** The rows of the first n directories of the walk. */
  function WalkRows(s: Settings, fsys: Files, compare: (Img, Img) -> Compared, dirs: seq<Dir>, n: nat)
    : seq<seq<Cell>>
    requires n <= |dirs|
  {
    if n == 0 then []
    else WalkRows(s, fsys, compare, dirs, n - 1) + DirRowsOf(s, fsys, compare, dirs[n - 1])
  }

  /** Unfolds DirRows once. */
  lemma DirRowsStep(s: Settings, fsys: Files, compare: (Img, Img) -> Compared, d: Dir, names: seq<string>,
                    i: nat, r: Option<seq<Cell>>)
    requires i < |names| && r == EntryRow(s, fsys, compare, d, names[i])
    ensures DirRows(s, fsys, compare, d, names, i + 1)
      == DirRows(s, fsys, compare, d, names, i) + (if r.Some? then [r.value] else [])
  {
  }

  /** Unfolds WalkRows once. */
  lemma WalkRowsStep(s: Settings, fsys: Files, compare: (Img, Img) -> Compared, dirs: seq<Dir>, i: nat)
    requires i < |dirs|
    ensures WalkRows(s, fsys, compare, dirs, i + 1)
      == WalkRows(s, fsys, compare, dirs, i) + DirRowsOf(s, fsys, compare, dirs[i])
  {
  }

  /** A written row has the header's width. */
  lemma EntryRowWidth(s: Settings, fsys: Files, compare: (Img, Img) -> Compared, d: Dir, name: string)
    ensures var r := EntryRow(s, fsys, compare, d, name);
      r.Some? ==> |r.value| == Width(s.psnrOnly, s.channels)
  {
    var r := EntryRow(s, fsys, compare, d, name);
    if r.Some? {
      var ref := FirstReference(d.listing, Stem(name, s.outFmt), s.search);
      var refPath := Join(d.path, ref.value);
      var outPath := Join(d.path, name);
      var c := compare(fsys.pictures[refPath], fsys.pictures[outPath]);
      RowWidth(ref.value, Corrupted(c.scores, s.psnrOnly, s.psnrThreshold, s.ssimThreshold), c.scores,
               s.psnrOnly, s.channels, refPath, outPath);
    }
  }

  /** Every row of a directory has the header's width. */
  lemma {:induction false} DirRowsFit(s: Settings, fsys: Files, compare: (Img, Img) -> Compared, d: Dir,
                                      names: seq<string>, n: nat)
    requires n <= |names|
    ensures RowsFit(DirRows(s, fsys, compare, d, names, n), Width(s.psnrOnly, s.channels))
  {
    if n > 0 {
      DirRowsFit(s, fsys, compare, d, names, n - 1);
      var r := EntryRow(s, fsys, compare, d, names[n - 1]);
      EntryRowWidth(s, fsys, compare, d, names[n - 1]);
      RowsFitAppend(DirRows(s, fsys, compare, d, names, n - 1), if r.Some? then [r.value] else [],
                    Width(s.psnrOnly, s.channels));
    }
  }

  lemma DirRowsOfFit(s: Settings, fsys: Files, compare: (Img, Img) -> Compared, d: Dir)
    ensures RowsFit(DirRowsOf(s, fsys, compare, d), Width(s.psnrOnly, s.channels))
  {
    var names := Candidates(d.files, s.outFmt);
    DirRowsFit(s, fsys, compare, d, names, |names|);
  }

  /** The reference the loop of lines 50-54 finds is the first qualifying
      entry. */
  lemma {:induction false} FirstReferenceMeaning(listing: seq<string>, stem: string, search: string -> bool)
    ensures var r := FirstReference(listing, stem, search);
      (r.None? <==> forall k :: 0 <= k < |listing| ==> !IsReference(listing[k], stem, search))
      && (r.Some? ==>
            exists k :: 0 <= k < |listing| && listing[k] == r.value
              && IsReference(listing[k], stem, search)
              && forall j :: 0 <= j < k ==> !IsReference(listing[j], stem, search))
    decreases |listing|
  {
    if listing != [] && !IsReference(listing[0], stem, search) {
      FirstReferenceMeaning(listing[1..], stem, search);
      var r := FirstReference(listing[1..], stem, search);
      if r.Some? {
        var k :| 0 <= k < |listing[1..]| && listing[1..][k] == r.value
          && IsReference(listing[1..][k], stem, search)
          && forall j :: 0 <= j < k ==> !IsReference(listing[1..][j], stem, search);
        assert listing[k + 1] == r.value;
        forall j | 0 <= j < k + 1
          ensures !IsReference(listing[j], stem, search)
        {
          if j > 0 {
            assert listing[j] == listing[1..][j - 1];
          }
        }
      } else {
        forall k | 0 < k < |listing|
          ensures !IsReference(listing[k], stem, search)
        {
          assert listing[k] == listing[1..][k - 1];
        }
      }
    }
  }

  /** Two characterisations of the first qualifying entry agree. */
  lemma SameReference(listing: seq<string>, stem: string, search: string -> bool, ref: Option<string>)
    requires ref.None? <==> forall k :: 0 <= k < |listing| ==> !IsReference(listing[k], stem, search)
    requires ref.Some? ==>
      exists k :: 0 <= k < |listing| && listing[k] == ref.value
        && IsReference(listing[k], stem, search)
        && forall j :: 0 <= j < k ==> !IsReference(listing[j], stem, search)
    ensures ref == FirstReference(listing, stem, search)
  {
    FirstReferenceMeaning(listing, stem, search);
    var f := FirstReference(listing, stem, search);
    if ref.Some? {
      var k :| 0 <= k < |listing| && listing[k] == ref.value && IsReference(listing[k], stem, search)
        && forall j :: 0 <= j < k ==> !IsReference(listing[j], stem, search);
      var k' :| 0 <= k' < |listing| && listing[k'] == f.value && IsReference(listing[k'], stem, search)
        && forall j :: 0 <= j < k' ==> !IsReference(listing[j], stem, search);
      assert k == k';
    }
  }

  /** Lines 45-85 for one candidate: the row written, or None. */
  method ProcessEntry(s: Settings, fsys: Files, compare: (Img, Img) -> Compared, d: Dir, name: string)
    returns (row: Option<seq<Cell>>)
    ensures row == EntryRow(s, fsys, compare, d, name)
    ensures row.Some? ==> |row.value| == Width(s.psnrOnly, s.channels)
  {
    var outPath := Join(d.path, name);
    var stem := Stem(name, s.outFmt);
    var ref := FindReference(d.listing, stem, s.search);
    SameReference(d.listing, stem, s.search, ref);
    if ref.None? || Join(d.path, ref.value) !in fsys.regular {
      return None;
    }
    var refPath := Join(d.path, ref.value);
    if refPath !in fsys.pictures || outPath !in fsys.pictures {
      return None;
    }
    var results := compare(fsys.pictures[refPath], fsys.pictures[outPath]);
    if results.Raised? || !(s.psnrOnly || results.scores.ssim.Some?) {
      return None;
    }
    var corrupted := Corrupted(results.scores, s.psnrOnly, s.psnrThreshold, s.ssimThreshold);
    var cells := BuildRow(ref.value, corrupted, results.scores, s.psnrOnly, s.channels, refPath, outPath);
    RowWidth(ref.value, corrupted, results.scores, s.psnrOnly, s.channels, refPath, outPath);
    row := Some(cells);
  }

  /** One turn of the loop of line 40: the candidate's row, if any, joins
      those of the candidates before it. */
  method AddEntry(s: Settings, fsys: Files, compare: (Img, Img) -> Compared, d: Dir,
                  names: seq<string>, i: nat, rows0: seq<seq<Cell>>)
    returns (rows: seq<seq<Cell>>)
    requires i < |names| && rows0 == DirRows(s, fsys, compare, d, names, i)
    ensures rows == DirRows(s, fsys, compare, d, names, i + 1)
  {
    var row := ProcessEntry(s, fsys, compare, d, names[i]);
    DirRowsStep(s, fsys, compare, d, names, i, row);
    rows := rows0;
    if row.Some? {
      rows := rows + [row.value];
    }
  }

  /** Lines 40-88: the rows of one directory's candidates, in order. */
  method ProcessDir(s: Settings, fsys: Files, compare: (Img, Img) -> Compared, d: Dir)
    returns (rows: seq<seq<Cell>>)
    ensures rows == DirRowsOf(s, fsys, compare, d)
    ensures RowsFit(rows, Width(s.psnrOnly, s.channels))
  {
    var names := Candidates(d.files, s.outFmt);
    rows := [];
    var i := 0;
    while i < |names|
      invariant 0 <= i <= |names|
      invariant rows == DirRows(s, fsys, compare, d, names, i)
    {
      rows := AddEntry(s, fsys, compare, d, names, i, rows);
      i := i + 1;
    }
    DirRowsOfFit(s, fsys, compare, d);
  }

  /** Lines 26-88: the header, then the rows of every directory of the walk
      in walk order. */
  method CollectResults(s: Settings, fsys: Files, compare: (Img, Img) -> Compared, dirs: seq<Dir>)
    returns (header: seq<string>, rows: seq<seq<Cell>>)
    ensures header == Header(s.psnrOnly, s.channels)
    ensures rows == WalkRows(s, fsys, compare, dirs, |dirs|)
  {
    header := BuildHeader(s.psnrOnly, s.channels);
    rows := [];
    var i := 0;
    while i < |dirs|
      invariant 0 <= i <= |dirs|
      invariant rows == WalkRows(s, fsys, compare, dirs, i)
    {
      var dirRows := ProcessDir(s, fsys, compare, dirs[i]);
      WalkRowsStep(s, fsys, compare, dirs, i);
      rows := rows + dirRows;
      i := i + 1;
    }
  }

  /** A written row has the header's width and names, under "image", an
      entry of the listing that starts with the candidate's stem and that
      the pattern is found in. */
  lemma EntryRowFitsHeader(s: Settings, fsys: Files, compare: (Img, Img) -> Compared, d: Dir, name: string)
    ensures var r := EntryRow(s, fsys, compare, d, name);
      r.Some? ==>
        |r.value| == |Header(s.psnrOnly, s.channels)|
        && exists f :: f in d.listing && r.value[0] == Text(f) && IsReference(f, Stem(name, s.outFmt), s.search)
  {
    var r := EntryRow(s, fsys, compare, d, name);
    if r.Some? {
      var stem := Stem(name, s.outFmt);
      var ref := FirstReference(d.listing, stem, s.search);
      FirstReferenceMeaning(d.listing, stem, s.search);
      var refPath := Join(d.path, ref.value);
      var outPath := Join(d.path, name);
      var c := compare(fsys.pictures[refPath], fsys.pictures[outPath]);
      RowMatchesHeader(ref.value, Corrupted(c.scores, s.psnrOnly, s.psnrThreshold, s.ssimThreshold), c.scores,
                       s.psnrOnly, s.channels, refPath, outPath);
    }
  }

  /** With `compare_img` as the comparison, a candidate gets a row exactly
      when its reference is found, is a regular file, both pictures open and
      `compare_img` does not raise: the check for a missing SSIM score never
      decides anything. */
  lemma EntryRowWithCompareImg(s: Settings, fsys: Files, lib: Library, d: Dir, name: string)
    ensures var r := EntryRow(s, fsys, (a: Img, b: Img) => Compare(lib, a, b, s.psnrOnly), d, name);
      var ref := FirstReference(d.listing, Stem(name, s.outFmt), s.search);
      var outPath := Join(d.path, name);
      r.Some? <==>
        (ref.Some? && Join(d.path, ref.value) in fsys.regular
         && Join(d.path, ref.value) in fsys.pictures && outPath in fsys.pictures
         && Compare(lib, fsys.pictures[Join(d.path, ref.value)], fsys.pictures[outPath], s.psnrOnly).Compared?)
  {
  }
}
