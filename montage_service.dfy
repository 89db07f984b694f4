/**
 * The weekly montage (app/src/Services/MontageService.php): up to five
 * artist images laid out on a 1200x600 canvas, one large tile on the left
 * and four small ones on the right, saved as a JPEG named after the md5 of
 * the user id.
 *
 * Image decoding, scaling and encoding are not modelled: the canvas records
 * what is drawn where, layer by layer, and what a pixel shows is the last
 * layer covering it. `isFile` (is_file) and `md5` are parameters.
 */
module MontageService {
  import Text

  const CanvasWidth: int := 1200
  const CanvasHeight: int := 600
  const BackgroundColor := "#0b1020"
  const PlaceholderColor := "#243b55"

  /** A rectangle of the canvas: top-left corner, width and height, in pixels. */
  datatype Tile = Tile(x: int, y: int, w: int, h: int)

  predicate Covers(t: Tile, px: int, py: int) {
    t.x <= px < t.x + t.w && t.y <= py < t.y + t.h
  }

  predicate InCanvas(px: int, py: int) {
    0 <= px < CanvasWidth && 0 <= py < CanvasHeight
  }

  /** Two tiles share no pixel: one lies wholly beside or wholly above the other. */
  predicate Apart(a: Tile, b: Tile) {
    a.x + a.w <= b.x || b.x + b.w <= a.x || a.y + a.h <= b.y || b.y + b.h <= a.y
  }

  /**
   * The five tiles, in the order images fill them: the left half, then the
   * right half's top-left, top-right, bottom-left and bottom-right quarters.
   */
  function Tiles(): (ts: seq<Tile>)
    ensures |ts| == 5
  {
    var leftW := CanvasWidth / 2;
    var cellW := CanvasWidth / 4;
    var cellH := CanvasHeight / 2;
    [Tile(0, 0, leftW, CanvasHeight),
     Tile(leftW, 0, cellW, cellH),
     Tile(leftW + cellW, 0, cellW, cellH),
     Tile(leftW, cellH, cellW, cellH),
     Tile(leftW + cellW, cellH, cellW, cellH)]
  }

  /** The tiles are (0,0,600,600), (600,0,300,300), (900,0,300,300), (600,300,300,300), (900,300,300,300). */
  lemma TileGeometry()
    ensures Tiles() == [Tile(0, 0, 600, 600), Tile(600, 0, 300, 300), Tile(900, 0, 300, 300),
                        Tile(600, 300, 300, 300), Tile(900, 300, 300, 300)]
  {
  }

  /** No two tiles overlap, and each lies inside the canvas. */
  lemma TilesApartAndInside()
    ensures forall i, j :: 0 <= i < j < 5 ==> Apart(Tiles()[i], Tiles()[j])
    ensures forall i :: 0 <= i < 5 ==>
              0 <= Tiles()[i].x && Tiles()[i].x + Tiles()[i].w <= CanvasWidth
              && 0 <= Tiles()[i].y && Tiles()[i].y + Tiles()[i].h <= CanvasHeight
  {
    TileGeometry();
  }

  /** The tile a canvas pixel belongs to. */
  function TileOf(px: int, py: int): (k: nat)
    requires InCanvas(px, py)
    ensures k < 5 && Covers(Tiles()[k], px, py)
  {
    TileGeometry();
    if px < 600 then 0
    else if py < 300 then (if px < 900 then 1 else 2)
    else (if px < 900 then 3 else 4)
  }

  /** The tiles cover the canvas exactly: each pixel lies in one tile and in no other. */
  lemma TilesPartitionCanvas(px: int, py: int)
    requires InCanvas(px, py)
    ensures forall k :: 0 <= k < 5 && Covers(Tiles()[k], px, py) ==> k == TileOf(px, py)
  {
    TileGeometry();
  }

  /** What a layer shows: an image file scaled to cover its tile, or a plain colour. */
  datatype Source = Photo(path: string) | Fill(color: string)

  datatype Layer = Layer(source: Source, tile: Tile)

  /** What a pixel shows: the last layer covering it, else the background. */
  function ShownIn(layers: seq<Layer>, px: int, py: int, background: string): Source
    decreases |layers|
  {
    if layers == [] then Fill(background)
    else if Covers(layers[|layers| - 1].tile, px, py) then layers[|layers| - 1].source
    else ShownIn(layers[..|layers| - 1], px, py, background)
  }

  /** A pixel covered by exactly one layer shows that layer. */
  lemma {:induction false} ShownInOnlyCover(layers: seq<Layer>, k: nat, px: int, py: int, background: string)
    requires k < |layers| && Covers(layers[k].tile, px, py)
    requires forall j :: 0 <= j < |layers| && j != k ==> !Covers(layers[j].tile, px, py)
    ensures ShownIn(layers, px, py, background) == layers[k].source
    decreases |layers|
  {
    if k < |layers| - 1 {
      ShownInOnlyCover(layers[..|layers| - 1], k, px, py, background);
    }
  }

  /** The canvas: its size and background, and the layers placed on it so far. */
  class Canvas {
    const width: int
    const height: int
    const background: string
    var layers: seq<Layer>

    /** ImageManager::create($w, $h)->fill($color). */
    constructor (width: int, height: int, background: string)
      ensures this.width == width && this.height == height && this.background == background
      ensures layers == []
    {
      this.width := width;
      this.height := height;
      this.background := background;
      layers := [];
    }

    /** $canvas->place($img, 'top-left', $x, $y). */
    method Place(source: Source, tile: Tile)
      modifies this
      ensures layers == old(layers) + [Layer(source, tile)]
    {
      layers := layers + [Layer(source, tile)];
    }

    /** What the pixel shows now. */
    function Shown(px: int, py: int): Source
      reads this
    {
      ShownIn(layers, px, py, background)
    }
  }

  /** The paths kept by the array_filter: the non-empty ones, in order. */
  function NonEmptyPaths(paths: seq<string>): seq<string>
    decreases |paths|
  {
    if paths == [] then []
    else (if paths[0] != "" then [paths[0]] else []) + NonEmptyPaths(paths[1..])
  }

  /**
   * Exactly the non-empty paths survive, in order; a prefix of paths with no
   * empty one survives as it is, and later images move up into earlier tiles.
   */
  lemma NonEmptyPathsKeep(paths: seq<string>)
    ensures forall p :: p in NonEmptyPaths(paths) <==> p in paths && p != ""
    ensures |NonEmptyPaths(paths)| <= |paths|
    ensures forall n :: 0 <= n <= |paths| && "" !in paths[..n] ==>
              n <= |NonEmptyPaths(paths)| && NonEmptyPaths(paths)[..n] == paths[..n]
  {
    NonEmptyPathsMembers(paths);
    NonEmptyPathsPrefix(paths);
  }

  lemma {:induction false} NonEmptyPathsMembers(paths: seq<string>)
    ensures forall p :: p in NonEmptyPaths(paths) <==> p in paths && p != ""
    ensures |NonEmptyPaths(paths)| <= |paths|
    decreases |paths|
  {
    if paths != [] {
      NonEmptyPathsMembers(paths[1..]);
      assert paths == [paths[0]] + paths[1..];
    }
  }

  lemma {:induction false} NonEmptyPathsPrefix(paths: seq<string>)
    ensures forall n :: 0 <= n <= |paths| && "" !in paths[..n] ==>
              n <= |NonEmptyPaths(paths)| && NonEmptyPaths(paths)[..n] == paths[..n]
    decreases |paths|
  {
    if paths != [] {
      var rest := paths[1..];
      NonEmptyPathsPrefix(rest);
      forall n | 0 <= n <= |paths| && "" !in paths[..n]
        ensures n <= |NonEmptyPaths(paths)| && NonEmptyPaths(paths)[..n] == paths[..n]
      {
        if n > 0 {
          assert paths[0] == paths[..n][0];
          assert rest[..n - 1] == paths[1..n];
          assert "" !in rest[..n - 1];
          assert NonEmptyPaths(paths) == [paths[0]] + NonEmptyPaths(rest);
          assert NonEmptyPaths(paths)[..n] == [paths[0]] + NonEmptyPaths(rest)[..n - 1];
          assert paths[..n] == [paths[0]] + paths[1..n];
        }
      }
    }
  }

  /** $imagePaths[k] ?? ''. */
  function PathAt(paths: seq<string>, k: nat): string {
    if k < |paths| then paths[k] else ""
  }

  /** placeImage's choice: the image when the path names a file, else a placeholder block. */
  function TileSource(path: string, isFile: string -> bool): (s: Source)
    ensures s.Photo? <==> path != "" && isFile(path)
    ensures s.Photo? ==> s.path == path
    ensures s.Fill? ==> s.color == PlaceholderColor
  {
    if path != "" && isFile(path) then Photo(path) else Fill(PlaceholderColor)
  }

  /** placeImage: one layer on top of the canvas. */
  method PlaceImage(canvas: Canvas, path: string, isFile: string -> bool, x: int, y: int, width: int, height: int)
    modifies canvas
    ensures canvas.layers == old(canvas.layers) + [Layer(TileSource(path, isFile), Tile(x, y, width, height))]
  {
    if path != "" && isFile(path) {
      canvas.Place(Photo(path), Tile(x, y, width, height));
    } else {
      canvas.Place(Fill(PlaceholderColor), Tile(x, y, width, height));
    }
  }

  /** The layers of a montage: tile k shows the k-th kept path. */
  function MontageLayers(kept: seq<string>, isFile: string -> bool): (ls: seq<Layer>)
    ensures |ls| == 5
    ensures forall k :: 0 <= k < 5 ==> ls[k] == Layer(TileSource(PathAt(kept, k), isFile), Tiles()[k])
  {
    seq(5, k requires 0 <= k < 5 => Layer(TileSource(PathAt(kept, k), isFile), Tiles()[k]))
  }

  /** The montage's path relative to the application root. */
  function MontagePath(userId: int, md5: string -> string): (r: string)
    ensures Text.StartsWith(r, "data/montage/") && r[|r| - 4..] == ".jpg"
  {
    var r := "data/montage/" + md5(Text.IntToString(userId)) + ".jpg";
    assert r[..13] == "data/montage/";
    r
  }

  /**
   * createWeeklyMontage: the empty paths are dropped, the five tiles are
   * drawn in order, and the picture is saved under `appRoot`. The relative
   * path is returned. Paths after the fifth kept one are not drawn.
   */
  method CreateWeeklyMontage(userId: int, imagePaths: seq<string>, isFile: string -> bool,
                             md5: string -> string, appRoot: string)
    returns (relative: string, saved: string, canvas: Canvas)
    ensures fresh(canvas)
    ensures canvas.width == CanvasWidth && canvas.height == CanvasHeight && canvas.background == BackgroundColor
    ensures canvas.layers == MontageLayers(NonEmptyPaths(imagePaths), isFile)
    ensures relative == MontagePath(userId, md5) && saved == appRoot + "/" + relative
  {
    var paths := NonEmptyPaths(imagePaths);
    canvas := new Canvas(CanvasWidth, CanvasHeight, BackgroundColor);
    var leftW := CanvasWidth / 2;
    var rightCellW := CanvasWidth / 4;
    var rightCellH := CanvasHeight / 2;
    PlaceImage(canvas, PathAt(paths, 0), isFile, 0, 0, leftW, CanvasHeight);
    PlaceImage(canvas, PathAt(paths, 1), isFile, leftW, 0, rightCellW, rightCellH);
    PlaceImage(canvas, PathAt(paths, 2), isFile, leftW + rightCellW, 0, rightCellW, rightCellH);
    PlaceImage(canvas, PathAt(paths, 3), isFile, leftW, rightCellH, rightCellW, rightCellH);
    PlaceImage(canvas, PathAt(paths, 4), isFile, leftW + rightCellW, rightCellH, rightCellW, rightCellH);
    relative := MontagePath(userId, md5);
    saved := appRoot + "/" + relative;
    MontageLayersInOrder(paths, isFile);
  }

  /** The montage layers, one by one. */
  lemma MontageLayersInOrder(kept: seq<string>, isFile: string -> bool)
    ensures MontageLayers(kept, isFile)
            == [Layer(TileSource(PathAt(kept, 0), isFile), Tile(0, 0, 600, 600)),
                Layer(TileSource(PathAt(kept, 1), isFile), Tile(600, 0, 300, 300)),
                Layer(TileSource(PathAt(kept, 2), isFile), Tile(900, 0, 300, 300)),
                Layer(TileSource(PathAt(kept, 3), isFile), Tile(600, 300, 300, 300)),
                Layer(TileSource(PathAt(kept, 4), isFile), Tile(900, 300, 300, 300))]
  {
  }

  /**
   * Every pixel of the montage shows its own tile's source: the k-th kept
   * image when it is a file, a placeholder block otherwise; the background
   * shows nowhere.
   */
  lemma MontageShows(kept: seq<string>, isFile: string -> bool, px: int, py: int)
    requires InCanvas(px, py)
    ensures ShownIn(MontageLayers(kept, isFile), px, py, BackgroundColor)
            == TileSource(PathAt(kept, TileOf(px, py)), isFile)
  {
    var layers := MontageLayers(kept, isFile);
    var k := TileOf(px, py);
    TilesPartitionCanvas(px, py);
    ShownInOnlyCover(layers, k, px, py, BackgroundColor);
  }
}
