/**
 * The file-type switch at the top of `ImagePalette::setWorkingImageGD`: the
 * text after the last `.` of the path picks the GD loader.
 */
module FileType {

  /** The four GD loaders: `imagecreatefrompng`, `…jpeg`, `…gif`, `…bmp`. */
  datatype Loader = Png | Jpeg | Gif | Bmp

  /** An `UnsupportedFileTypeException` carries only its message. */
  datatype Result<T> = Ok(value: T) | Err(message: string)

  /**
   * `end(explode('.', path))`: the text after the last `.`, or the whole
   * path when it has none.
   */
  function FileExtension(path: string): (ext: string)
    ensures |ext| <= |path|
  {
    if path == [] then []
    else if path[|path| - 1] == '.' then []
    else FileExtension(path[..|path| - 1]) + [path[|path| - 1]]
  }

  /**
   * The extension is a `.`-free tail of the path, preceded by a `.` unless
   * it is the whole path: the last segment.
   */
  lemma {:induction false} ExtensionIsLastSegment(path: string)
    ensures '.' !in FileExtension(path)
    ensures FileExtension(path) == path[|path| - |FileExtension(path)|..]
    ensures |FileExtension(path)| == |path| || path[|path| - |FileExtension(path)| - 1] == '.'
  {
    if path != [] && path[|path| - 1] != '.' {
      var init := path[..|path| - 1];
      ExtensionIsLastSegment(init);
      var e := FileExtension(init);
      assert FileExtension(path) == e + [path[|path| - 1]];
      assert init[|init| - |e|..] + [path[|path| - 1]] == path[|path| - |e| - 1..];
    }
  }

  /** `ext` is the three-letter word `a b c`, compared character by character. */
  predicate Spells(ext: string, a: char, b: char, c: char)
  {
    |ext| == 3 && ext[0] == a && ext[1] == b && ext[2] == c
  }

  /** The `switch` on the extension; any other extension throws. */
  function LoaderFor(path: string): (r: Result<Loader>)
    ensures r.Err? ==> r.message == "The file type ." + FileExtension(path) + " is not supported."
  {
    var ext := FileExtension(path);
    if Spells(ext, 'p', 'n', 'g') then Ok(Png)
    else if Spells(ext, 'j', 'p', 'g') then Ok(Jpeg)
    else if Spells(ext, 'g', 'i', 'f') then Ok(Gif)
    else if Spells(ext, 'b', 'm', 'p') then Ok(Bmp)
    else Err("The file type ." + ext + " is not supported.")
  }

  /**
   * A path whose last segment is exactly `png`, `jpg`, `gif` or `bmp` is
   * accepted, whatever precedes that segment; the match is case-sensitive, so
   * any other final segment (`PNG`, `jpeg`, an empty one) is refused.
   */
  lemma {:induction false} LoaderForSuffix(prefix: string, ext: string)
    requires '.' !in ext
    ensures LoaderFor(prefix + "." + ext).Ok? <==> ext in ["png", "jpg", "gif", "bmp"]
    ensures ext == "png" ==> LoaderFor(prefix + "." + ext) == Ok(Png)
    ensures ext == "jpg" ==> LoaderFor(prefix + "." + ext) == Ok(Jpeg)
    ensures ext == "gif" ==> LoaderFor(prefix + "." + ext) == Ok(Gif)
    ensures ext == "bmp" ==> LoaderFor(prefix + "." + ext) == Ok(Bmp)
  {
    ExtensionOfSuffix(prefix + ".", ext);
    assert Spells(ext, 'p', 'n', 'g') <==> ext == "png";
    assert Spells(ext, 'j', 'p', 'g') <==> ext == "jpg";
    assert Spells(ext, 'g', 'i', 'f') <==> ext == "gif";
    assert Spells(ext, 'b', 'm', 'p') <==> ext == "bmp";
  }

  lemma {:induction false} ExtensionOfSuffix(prefix: string, ext: string)
    requires '.' !in ext
    requires prefix != [] && prefix[|prefix| - 1] == '.'
    ensures FileExtension(prefix + ext) == ext
  {
    if ext == [] {
      assert prefix + ext == prefix;
    } else {
      var path, init, last := prefix + ext, ext[..|ext| - 1], ext[|ext| - 1];
      assert path[|path| - 1] == last && last != '.';
      assert path[..|path| - 1] == prefix + init;
      ExtensionOfSuffix(prefix, init);
      assert FileExtension(path) == init + [last];
      assert ext == init + [last];
    }
  }
}
