/**
 * World files: the six-line text file beside a georeferenced image that
 * places the image's pixels in map coordinates, and the path of that file,
 * derived from the image path's extension.
 */
module WorldFiles {

  /** `lastIndexOf(ch)`: the index of the last `ch` in `s`, or -1. */
  function LastIndexOf(s: string, ch: char): (i: int)
    ensures -1 <= i < |s|
    ensures i >= 0 ==> s[i] == ch
    ensures forall j :: i < j < |s| ==> s[j] != ch
    decreases |s|
  {
    if |s| == 0 then -1
    else if s[|s| - 1] == ch then |s| - 1
    else LastIndexOf(s[..|s| - 1], ch)
  }

  /** `ch` does not occur in `s`. */
  predicate Lacks(s: string, ch: char) {
    forall j :: 0 <= j < |s| ==> s[j] != ch
  }

  /**
   * `getFileExtension`: the text after the last dot, or the empty string
   * when the path has no dot.
   */
  function FileExtension(fileName: string): (ext: string)
    ensures Lacks(fileName, '.') ==> ext == ""
    ensures !Lacks(fileName, '.') ==> exists k :: 0 <= k < |fileName| && fileName[k] == '.' && ext == fileName[k + 1..]
    ensures Lacks(ext, '.')
  {
    var dotIndex := LastIndexOf(fileName, '.');
    if dotIndex == -1 then
      assert forall j :: 0 <= j < |fileName| ==> fileName[j] != '.';
      ""
    else
      var ext := fileName[dotIndex + 1..];
      assert forall j :: 0 <= j < |ext| ==> ext[j] == fileName[dotIndex + 1 + j];
      ext
  }

  /**
   * `replaceExtension`: the prefix through the last dot followed by the new
   * extension; a path without a dot gets a dot and the extension appended.
   */
  function ReplaceExtension(filePath: string, newExtension: string): (p: string)
    ensures Lacks(filePath, '.') ==> p == filePath + "." + newExtension
    ensures !Lacks(filePath, '.') ==>
      exists k :: 0 <= k < |filePath| && filePath[k] == '.' && Lacks(filePath[k + 1..], '.') &&
        p == filePath[..k + 1] + newExtension
  {
    var dotIndex := LastIndexOf(filePath, '.');
    if dotIndex == -1 then filePath + "." + newExtension
    else
      var rest := filePath[dotIndex + 1..];
      assert forall j :: 0 <= j < |rest| ==> rest[j] == filePath[dotIndex + 1 + j];
      filePath[..dotIndex + 1] + newExtension
  }

  /** A dot followed by a dot-free text: the last dot is the one in front. */
  lemma {:induction false} LastDotBeforeSuffix(prefix: string, suffix: string)
    requires Lacks(suffix, '.')
    ensures LastIndexOf(prefix + "." + suffix, '.') == |prefix|
    decreases |suffix|
  {
    var s := prefix + "." + suffix;
    if |suffix| > 0 {
      var shorter := suffix[..|suffix| - 1];
      assert s[..|s| - 1] == prefix + "." + shorter;
      assert s[|s| - 1] == suffix[|suffix| - 1];
      LastDotBeforeSuffix(prefix, shorter);
    }
  }

  /** Round trip: the extension of a path whose extension was replaced by a dot-free one is that one. */
  lemma ReplaceThenGetExtension(filePath: string, ext: string)
    requires Lacks(ext, '.')
    ensures FileExtension(ReplaceExtension(filePath, ext)) == ext
  {
    var dotIndex := LastIndexOf(filePath, '.');
    var prefix := if dotIndex == -1 then filePath else filePath[..dotIndex];
    if dotIndex != -1 {
      assert filePath[..dotIndex + 1] == prefix + ".";
    }
    assert ReplaceExtension(filePath, ext) == prefix + "." + ext;
    LastDotBeforeSuffix(prefix, ext);
    assert (prefix + "." + ext)[|prefix| + 1..] == ext;
  }

  /** The world-file extension for an image extension: "w", ext + "w", or first + last + "w". */
  function WorldFileExtension(ext: string): (w: string)
    ensures |w| >= 1 && w[|w| - 1] == 'w' && |w| <= 3
    ensures |ext| == 0 ==> w == "w"
    ensures 1 <= |ext| <= 2 ==> w == ext + "w"
    ensures |ext| >= 3 ==> w == [ext[0], ext[|ext| - 1], 'w']
  {
    match |ext|
    case 0 => "w"
    case 1 => ext + "w"
    case 2 => ext + "w"
    case _ => ext[0..1] + ext[|ext| - 1..|ext|] + "w"
  }

  /** `constructPath`: the image path with its extension replaced by the world-file extension. */
  function ConstructPath(imageFilePath: string): string {
    ReplaceExtension(imageFilePath, WorldFileExtension(FileExtension(imageFilePath)))
  }

  /** The extension of a constructed world-file path ends in 'w' and has at most three characters. */
  lemma ConstructedExtension(imageFilePath: string)
    ensures var e := FileExtension(ConstructPath(imageFilePath));
      1 <= |e| <= 3 && e[|e| - 1] == 'w' && e == WorldFileExtension(FileExtension(imageFilePath))
  {
    var ext := FileExtension(imageFilePath);
    var w := WorldFileExtension(ext);
    assert Lacks(w, '.') by {
      if |ext| >= 3 {
        assert w == [ext[0], ext[|ext| - 1], 'w'];
      }
    }
    ReplaceThenGetExtension(imageFilePath, w);
  }

  /** "a.tif" gets the world file "a.tfw". */
  lemma TifExample()
    ensures ConstructPath("a.tif") == "a.tfw"
  {
    LastDotBeforeSuffix("a", "tif");
    assert "a" + "." + "tif" == "a.tif";
    assert "a.tif"[2..] == "tif";
    assert FileExtension("a.tif") == "tif";
    assert WorldFileExtension("tif") == "tfw";
    assert "a.tif"[..2] == "a.";
  }

  /**
   * The six values of `writeWorldFile`, one per line: the pixel width, two
   * zero rotation terms, the negated pixel height, and the map coordinates
   * of the top-left pixel.
   */
  function WorldFileValues(cellSize: real, west: real, north: real): (v: seq<real>)
    ensures |v| == 6
    ensures v[0] == cellSize && v[3] == -cellSize
    ensures v[1] == 0.0 && v[2] == 0.0
    ensures v[4] == west && v[5] == north
  {
    [cellSize, 0.0, 0.0, -cellSize, west, north]
  }

  /**
   * The text lines written: each double as its text, the zeros as the
   * integer 0.
   */
  function WorldFileLines(cellSize: real, west: real, north: real, doubleText: real -> string): (ls: seq<string>)
    ensures |ls| == 6
    ensures ls[0] == doubleText(cellSize) && ls[3] == doubleText(-cellSize)
    ensures ls[1] == "0" && ls[2] == "0"
    ensures ls[4] == doubleText(west) && ls[5] == doubleText(north)
  {
    [doubleText(cellSize), "0", "0", doubleText(-cellSize), doubleText(west), doubleText(north)]
  }

  /**
   * How a world file is read: map x = A * col + B * row + C and map
   * y = D * col + E * row + F, the lines holding A, D, B, E, C, F.
   */
  function PixelToMap(v: seq<real>, col: real, row: real): (real, real)
    requires |v| == 6
  {
    (v[0] * col + v[2] * row + v[4], v[1] * col + v[3] * row + v[5])
  }

  /**
   * The written file places pixel (col, row) at west + col * cellSize and
   * north - row * cellSize: columns run east, rows run south.
   */
  lemma WorldFilePlacesPixels(cellSize: real, west: real, north: real, col: real, row: real)
    ensures PixelToMap(WorldFileValues(cellSize, west, north), col, row) ==
      (west + col * cellSize, north - row * cellSize)
  {
    var v := WorldFileValues(cellSize, west, north);
    var x := v[0] * col + v[2] * row + v[4];
    var y := v[1] * col + v[3] * row + v[5];
    assert PixelToMap(v, col, row).0 == x;
    assert PixelToMap(v, col, row).1 == y;
    assert x == west + col * cellSize;
    assert y == north - row * cellSize;
  }
}
