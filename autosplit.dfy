/**
 * autosplit.rb: finding the spine (the darkest column near the middle) of a
 * two-page scan, the geometry and names of the two page crops, and the red
 * debugging stripe drawn over the spine.
 */
module AutoSplit {
  import opened Strings

  /** The largest channel intensity of a 16-bit ImageMagick build. */
  const QuantumRange: nat := 65535

  type Quantum = q: int | 0 <= q <= QuantumRange

  datatype Pixel = Pixel(red: Quantum, green: Quantum, blue: Quantum)

  /** `Magick::Pixel.from_color('red')`. */
  const Red := Pixel(QuantumRange, 0, 0)

  /** A decoded image, `columns` wide and `rows` high, stored row by row: `pixels[y][x]`. */
  datatype Image = Image(columns: nat, rows: nat, pixels: seq<seq<Pixel>>)
  {
    /** The grid has the stated shape; an ImageMagick image is never zero columns wide. */
    predicate Valid()
    {
      columns >= 1 && |pixels| == rows && forall y :: 0 <= y < |pixels| ==> |pixels[y]| == columns
    }
  }

  datatype Error = OutOfBounds

  datatype Result<T> = Ok(value: T) | Err(error: Error)

  // ---------------------------------------------------------------------------
  // find_spine

  function PixelBrightness(p: Pixel): nat
  {
    p.red + p.green + p.blue
  }

  /** Sum of red+green+blue over rows 0..n-1 of column x. */
  function ColumnSum(img: Image, x: nat, n: nat): nat
    requires img.Valid() && x < img.columns && n <= img.rows
  {
    if n == 0 then 0 else ColumnSum(img, x, n - 1) + PixelBrightness(img.pixels[n - 1][x])
  }

  /** The brightness of a whole column: the sum over all of its rows. */
  function Brightness(img: Image, x: nat): nat
    requires img.Valid() && x < img.columns
  {
    ColumnSum(img, x, img.rows)
  }

  /** Every pixel adds at most 3 * QuantumRange to a column sum. */
  lemma {:induction false} ColumnSumBound(img: Image, x: nat, n: nat)
    requires img.Valid() && x < img.columns && n <= img.rows
    ensures ColumnSum(img, x, n) <= 3 * QuantumRange * n
  {
    if n > 0 {
      ColumnSumBound(img, x, n - 1);
      var p := img.pixels[n - 1][x];
      assert PixelBrightness(p) <= 3 * QuantumRange;
      assert 3 * QuantumRange * n == 3 * QuantumRange * (n - 1) + 3 * QuantumRange;
    }
  }

  /** The starting `min_brightness`, meant to be larger than any column. */
  function Sentinel(rows: nat): nat
  {
    4 * QuantumRange * rows
  }

  /**
   * The sentinel is strictly above every column's brightness as soon as there
   * is a row, so the first scanned column always replaces it.
   */
  lemma {:induction false} SentinelAboveEveryColumn(img: Image, x: nat)
    requires img.Valid() && x < img.columns && img.rows >= 1
    ensures Brightness(img, x) < Sentinel(img.rows)
  {
    ColumnSumBound(img, x, img.rows);
  }

  /**
   * The scanned range is the middle 20%: cols/2 - cols/10 .. cols/2 + cols/10.
   * `(cols.to_f / 10).to_i` truncates, which for a column count is cols / 10.
   */
  function ScanStart(columns: nat): nat
  {
    columns / 2 - columns / 10
  }

  function ScanEnd(columns: nat): nat
  {
    columns / 2 + columns / 10
  }

  lemma {:induction false} ScanRangeInImage(columns: nat)
    requires columns >= 1
    ensures ScanStart(columns) <= ScanEnd(columns) < columns
  {
  }

  /**
   * `x` is the spine: inside the scanned range, no brighter than any scanned
   * column, and strictly darker than every scanned column to its left.
   */
  ghost predicate IsSpine(img: Image, x: nat)
    requires img.Valid()
  {
    && ScanStart(img.columns) <= x <= ScanEnd(img.columns)
    && (forall y :: ScanStart(img.columns) <= y <= ScanEnd(img.columns) ==> Brightness(img, x) <= Brightness(img, y))
    && (forall y :: ScanStart(img.columns) <= y < x ==> Brightness(img, x) < Brightness(img, y))
  }

  /** The three conditions pin the spine down: at most one column meets them. */
  lemma {:induction false} SpineUnique(img: Image, a: nat, b: nat)
    requires img.Valid() && IsSpine(img, a) && IsSpine(img, b)
    ensures a == b
  {
    var ba, bb := Brightness(img, a), Brightness(img, b);
    assert ba <= bb && bb <= ba;
  }

  /** A column strictly darker than every other scanned column is the spine. */
  lemma {:induction false} UniqueDarkestIsSpine(img: Image, k: nat)
    requires img.Valid()
    requires ScanStart(img.columns) <= k <= ScanEnd(img.columns)
    requires forall y :: ScanStart(img.columns) <= y <= ScanEnd(img.columns) && y != k ==> Brightness(img, k) < Brightness(img, y)
    ensures IsSpine(img, k)
  {
  }

  /** Sums red+green+blue down column x (`get_pixels(x, 0, 1, rows)` and the `total` loop). */
  method ColumnBrightness(img: Image, x: nat) returns (total: nat)
    requires img.Valid() && x < img.columns
    ensures total == Brightness(img, x)
  {
    total := 0;
    var y := 0;
    while y < img.rows
      invariant 0 <= y <= img.rows
      invariant total == ColumnSum(img, x, y)
    {
      total := total + PixelBrightness(img.pixels[y][x]);
      y := y + 1;
    }
  }

  /**
   * What the scan of `find_spine` knows once columns ScanStart .. x-1 are
   * summed: the best column so far, its brightness, and that it is the
   * lowest darkest one among those.
   */
  ghost predicate Scanned(img: Image, x: nat, darkestX: nat, minBrightness: nat)
    requires img.Valid()
  {
    var startX := ScanStart(img.columns);
    && startX <= x <= ScanEnd(img.columns) + 1
    && (x == startX ==> darkestX == 0 && minBrightness == Sentinel(img.rows))
    && (x > startX && img.rows >= 1 ==> startX <= darkestX < x && minBrightness == Brightness(img, darkestX))
    && (img.rows == 0 ==> darkestX == 0 && minBrightness == 0)
    && (forall y :: startX <= y < x ==> minBrightness <= Brightness(img, y))
    && (forall y :: startX <= y < darkestX && y < x ==> minBrightness < Brightness(img, y))
  }

  /** Looking at column x keeps `Scanned`, whether or not x is darker than the best so far. */
  lemma {:induction false} ScanStep(img: Image, x: nat, darkestX: nat, minBrightness: nat)
    requires img.Valid() && Scanned(img, x, darkestX, minBrightness) && x <= ScanEnd(img.columns)
    ensures x < img.columns
    ensures Brightness(img, x) < minBrightness ==> Scanned(img, x + 1, x, Brightness(img, x))
    ensures Brightness(img, x) >= minBrightness ==> Scanned(img, x + 1, darkestX, minBrightness)
  {
    ScanRangeInImage(img.columns);
    if img.rows >= 1 {
      SentinelAboveEveryColumn(img, x);
    }
  }

  /** When the whole range is scanned, the best column is the spine. */
  lemma {:induction false} ScanDone(img: Image, darkestX: nat, minBrightness: nat)
    requires img.Valid() && Scanned(img, ScanEnd(img.columns) + 1, darkestX, minBrightness)
    ensures img.rows >= 1 ==> IsSpine(img, darkestX)
    ensures img.rows == 0 ==> darkestX == 0
  {
  }

  /**
   * `find_spine`: the darkest column of the scanned range, the lowest one on a
   * tie. With no rows every column sums to 0, which is not below the sentinel
   * 4 * 65535 * 0, so the initial 0 is returned.
   */
  method FindSpine(img: Image) returns (darkestX: nat)
    requires img.Valid()
    ensures img.rows >= 1 ==> IsSpine(img, darkestX)
    ensures img.rows == 0 ==> darkestX == 0
  {
    var startX := ScanStart(img.columns);
    var endX := ScanEnd(img.columns);
    darkestX := 0;
    var minBrightness := Sentinel(img.rows);
    var x := startX;
    while x <= endX
      invariant Scanned(img, x, darkestX, minBrightness)
    {
      ScanStep(img, x, darkestX, minBrightness);
      var total := ColumnBrightness(img, x);
      if total < minBrightness {
        minBrightness := total;
        darkestX := x;
      }
      x := x + 1;
    }
    ScanDone(img, darkestX, minBrightness);
  }

  // ---------------------------------------------------------------------------
  // File names

  /**
   * `filename.sub(ext, suffix + ext)` where `ext = File.extname(filename)`:
   * the FIRST occurrence of the extension gets the suffix in front of it.
   */
  function PageName(filename: string, suffix: string): (page: string)
    ensures |page| == |filename| + |suffix|
  {
    var ext := ExtName(filename);
    assert OccursAt(filename, ext, |filename| - |ext|);
    FindFromCorrect(filename, ext, 0);
    Sub(filename, ext, suffix + ext)
  }

  /** The extension is not empty and occurs in the name only as its suffix. */
  ghost predicate ExtOnlyAtEnd(filename: string)
  {
    var ext := ExtName(filename);
    ext != [] && forall j: nat :: j < |filename| - |ext| ==> !OccursAt(filename, ext, j)
  }

  /**
   * The suffix lands just before the extension when the extension occurs only
   * at the end; a name without an extension gets the suffix at its FRONT,
   * since the empty pattern matches at index 0.
   */
  lemma {:induction false} PageNameForm(filename: string, suffix: string)
    ensures ExtOnlyAtEnd(filename) ==>
      PageName(filename, suffix) == filename[..|filename| - |ExtName(filename)|] + suffix + ExtName(filename)
    ensures ExtName(filename) == [] ==> PageName(filename, suffix) == suffix + filename
  {
    var ext := ExtName(filename);
    if ExtOnlyAtEnd(filename) {
      var i := |filename| - |ext|;
      assert OccursAt(filename, ext, i);
      SubAtFirst(filename, ext, suffix + ext, i);
      assert filename[i + |ext|..] == [];
      assert filename[..i] + (suffix + ext) + [] == filename[..i] + suffix + ext;
    }
    if ext == [] {
      SubEmptyPattern(filename, suffix);
    }
  }

  /**
   * For `stem.e` with a plain extension that does not occur in the stem, the
   * page name is `stem` + suffix + `.e` (`name.ext` becomes `name_left.ext`).
   */
  lemma {:induction false} PageNameOf(stem: string, e: string, suffix: string)
    requires |stem| > 0 && stem[|stem| - 1] != '/'
    requires forall k :: 0 <= k < |e| ==> e[k] != '.' && e[k] != '/'
    requires Absent(stem, ['.'] + e)
    ensures PageName(stem + ['.'] + e, suffix) == stem + suffix + ['.'] + e
  {
    ExtNameOf(stem, e);
    SuffixBeforeExtension(stem, e, suffix);
  }

  /** Substituting `.e` by `suffix.e` in `stem.e` when the stem holds no `.e`. */
  lemma {:induction false} SuffixBeforeExtension(stem: string, e: string, suffix: string)
    requires forall k :: 0 <= k < |e| ==> e[k] != '.'
    requires Absent(stem, ['.'] + e)
    ensures Sub(stem + ['.'] + e, ['.'] + e, suffix + (['.'] + e)) == stem + suffix + ['.'] + e
  {
    var ext := ['.'] + e;
    assert forall k :: 1 <= k < |ext| ==> ext[k] == e[k - 1];
    SubAfterStem(stem, ext, [], suffix + ext);
    assert stem + ['.'] + e == stem + ext + [];
    assert stem + (suffix + ext) + [] == stem + suffix + ['.'] + e;
  }

  /**
   * As written, the first occurrence of the extension wins even when it is not
   * the suffix: "a.png.png" becomes "a_left.png.png".
   */
  lemma {:induction false} PageNameRepeatedExtension()
    ensures PageName("a.png.png", "_left") == "a_left.png.png"
  {
    var s := "a.png.png";
    ExtNameOf("a.png", "png");
    assert "a.png" + ['.'] + "png" == s;
    assert FindFrom(s, ".png", 1) == Some(1);
    assert FindFrom(s, ".png", 0) == Some(1);
    assert s[..1] == "a" && s[5..] == ".png";
  }

  // ---------------------------------------------------------------------------
  // split_image

  datatype Rect = Rect(x: int, y: int, width: int, height: int)

  /** A crop of the image and the file it is written to. */
  datatype Crop = Crop(area: Rect, name: string)

  datatype Split = Split(left: Crop, right: Crop)

  predicate CoversColumn(r: Rect, c: int)
  {
    r.x <= c < r.x + r.width
  }

  /** The overlap margin: 2% of the width, by integer division. */
  function Margin(columns: nat): nat
  {
    columns / 50
  }

  /**
   * `split_image`: crops reaching `columns / 50` past the center on either
   * side, written as `_left` and `_right` pages.
   */
  function SplitImage(filename: string, columns: nat, rows: nat, center: int): (s: Split)
    ensures s.left.area.x == 0 && s.left.area.y == 0 && s.left.area.height == rows
    ensures s.right.area.y == 0 && s.right.area.height == rows
    ensures s.left.area.width == center + Margin(columns) && s.right.area.x == center - Margin(columns)
    ensures s.right.area.x + s.right.area.width == columns
    ensures s.left.area.x + s.left.area.width - s.right.area.x == 2 * Margin(columns)
    ensures forall c :: 0 <= c < columns ==> CoversColumn(s.left.area, c) || CoversColumn(s.right.area, c)
    ensures forall c :: CoversColumn(s.left.area, c) && CoversColumn(s.right.area, c) <==>
      0 <= c < columns && center - Margin(columns) <= c < center + Margin(columns)
    ensures s.left.name == PageName(filename, "_left") && s.right.name == PageName(filename, "_right")
  {
    var twoPercent := Margin(columns);
    var lhs := Rect(0, 0, center + twoPercent, rows);
    var start := center - twoPercent;
    var width := columns - start;
    var rhs := Rect(start, 0, width, rows);
    Split(Crop(lhs, PageName(filename, "_left")), Crop(rhs, PageName(filename, "_right")))
  }

  predicate WithinImage(r: Rect, columns: nat, rows: nat)
  {
    0 <= r.x && 0 <= r.y && 0 <= r.width && 0 <= r.height && r.x + r.width <= columns && r.y + r.height <= rows
  }

  /** For a center in the scanned range both crops stay inside the image. */
  lemma {:induction false} SplitWithinImage(filename: string, columns: nat, rows: nat, center: int)
    requires columns >= 1
    requires ScanStart(columns) <= center <= ScanEnd(columns)
    ensures WithinImage(SplitImage(filename, columns, rows, center).left.area, columns, rows)
    ensures WithinImage(SplitImage(filename, columns, rows, center).right.area, columns, rows)
  {
  }

  // ---------------------------------------------------------------------------
  // draw_line

  /** The three columns x-1..x+1 lie inside an image `columns` wide. */
  predicate StripeFits(columns: nat, x: int)
  {
    1 <= x && x + 2 <= columns
  }

  /** A spine can carry the stripe exactly when the image is at least 3 columns wide. */
  lemma {:induction false} StripeFitsAtSpine(columns: nat, x: int)
    requires columns >= 1
    requires ScanStart(columns) <= x <= ScanEnd(columns)
    ensures StripeFits(columns, x) <==> columns >= 3
  {
  }

  /**
   * `draw_line`: builds 3 * rows red pixels and stores them over columns
   * x-1..x+1 of every row, then names the output `.autosplit` + ext. The
   * library refuses a block outside the image, and nothing is written then.
   */
  method DrawLine(filename: string, buf: array2<Pixel>, x: int) returns (r: Result<string>)
    modifies buf
    ensures r == if StripeFits(buf.Length1, x) then Ok(PageName(filename, ".autosplit")) else Err(OutOfBounds)
    ensures !StripeFits(buf.Length1, x) ==> unchanged(buf)
    ensures StripeFits(buf.Length1, x) ==> forall y, c :: 0 <= y < buf.Length0 && 0 <= c < buf.Length1 ==>
      buf[y, c] == if x - 1 <= c <= x + 1 then Red else old(buf[y, c])
  {
    var rows := buf.Length0;
    var redline: seq<Pixel> := [];
    var n := 0;
    while n < 3 * rows
      invariant n <= 3 * rows
      invariant |redline| == n
      invariant forall k :: 0 <= k < n ==> redline[k] == Red
    {
      redline := redline + [Red];
      n := n + 1;
    }
    // store_pixels(x - 1, 0, 3, rows, redline)
    if !StripeFits(buf.Length1, x) {
      return Err(OutOfBounds);
    }
    var y := 0;
    while y < rows
      invariant 0 <= y <= rows
      invariant forall yy, c :: 0 <= yy < rows && 0 <= c < buf.Length1 ==>
        buf[yy, c] == if yy < y && x - 1 <= c <= x + 1 then Red else old(buf[yy, c])
    {
      var k := 0;
      while k < 3
        invariant 0 <= k <= 3
        invariant forall yy, c :: 0 <= yy < rows && 0 <= c < buf.Length1 ==>
          buf[yy, c] == if (yy < y || (yy == y && c < x - 1 + k)) && x - 1 <= c <= x + 1 then Red else old(buf[yy, c])
      {
        buf[y, x - 1 + k] := redline[3 * y + k];
        k := k + 1;
      }
      y := y + 1;
    }
    r := Ok(PageName(filename, ".autosplit"));
  }

  // ---------------------------------------------------------------------------
  // The per-file loop

  /** The pixel buffer read as an image value. */
  function Snapshot(buf: array2<Pixel>): (img: Image)
    reads buf
  {
    Image(buf.Length1, buf.Length0,
      seq(buf.Length0, y requires 0 <= y < buf.Length0 reads buf =>
        seq(buf.Length1, c requires 0 <= c < buf.Length1 reads buf => buf[y, c])))
  }

  /**
   * The body of the `ARGV.each` loop for one (already deskewed) image: find
   * the spine, then draw the stripe over it.
   */
  method AutosplitFile(filename: string, buf: array2<Pixel>) returns (center: nat, written: Result<string>)
    requires buf.Length1 >= 1
    modifies buf
    ensures old(Snapshot(buf)).Valid()
    ensures buf.Length0 >= 1 ==> IsSpine(old(Snapshot(buf)), center)
    ensures buf.Length0 == 0 ==> center == 0
    ensures written == if StripeFits(buf.Length1, center) then Ok(PageName(filename, ".autosplit")) else Err(OutOfBounds)
    ensures buf.Length0 >= 1 ==> (written.Ok? <==> buf.Length1 >= 3)
    ensures StripeFits(buf.Length1, center) ==> forall y, c :: 0 <= y < buf.Length0 && 0 <= c < buf.Length1 ==>
      buf[y, c] == if center - 1 <= c <= center + 1 then Red else old(buf[y, c])
    ensures !StripeFits(buf.Length1, center) ==> unchanged(buf)
  {
    var img := Snapshot(buf);
    center := FindSpine(img);
    if buf.Length0 >= 1 {
      StripeFitsAtSpine(buf.Length1, center);
    }
    written := DrawLine(filename, buf, center);
  }
}
