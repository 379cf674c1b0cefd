/**
 Photo file names (camera.py, `get_base_filename_for_images` and `taking_photo`). The
 clock is an input: `stamp` is the text of `str(datetime.datetime.now())`, for instance
 "2017-12-31 23:59:59.123456".
 */
module Filenames {

  /** Python's `s.split('.')[0]`: the text before the first '.', or all of `s`. */
  function BeforeFirstDot(s: string): (r: string)
    ensures r <= s
    ensures '.' !in r
    ensures |r| < |s| ==> s[|r|] == '.'
  {
    if |s| == 0 || s[0] == '.' then ""
    else [s[0]] + BeforeFirstDot(s[1..])
  }

  /** Python's `s.replace(target, replacement)` for one-character arguments. */
  function ReplaceChar(s: string, target: char, replacement: char): (r: string)
    ensures |r| == |s|
    ensures forall i :: 0 <= i < |s| ==> r[i] == (if s[i] == target then replacement else s[i])
  {
    if |s| == 0 then ""
    else [if s[0] == target then replacement else s[0]] + ReplaceChar(s[1..], target, replacement)
  }

  /** How one character of the timestamp appears in a file name. */
  function SafeChar(c: char): char {
    if c == ' ' then '_' else if c == ':' then '-' else c
  }

  /** The base name of a capture: the timestamp up to the seconds, with spaces turned
      into '_' and colons into '-'. It has no space, colon or dot, and is the
      character-wise image of the timestamp's text before its first dot. */
  function BaseName(stamp: string): (r: string)
    ensures ' ' !in r && ':' !in r && '.' !in r
    ensures |r| == |BeforeFirstDot(stamp)| <= |stamp|
    ensures forall i :: 0 <= i < |r| ==> r[i] == SafeChar(stamp[i])
  {
    var seconds := BeforeFirstDot(stamp);
    var underscored := ReplaceChar(seconds, ' ', '_');
    var r := ReplaceChar(underscored, ':', '-');
    assert forall i :: 0 <= i < |r| ==> r[i] == SafeChar(seconds[i]) && seconds[i] == stamp[i];
    r
  }

  /** A timestamp without '/' gives a base name without '/'. */
  lemma NoSlashInBaseName(stamp: string)
    requires '/' !in stamp
    ensures '/' !in BaseName(stamp)
  {
    var r := BaseName(stamp);
    forall i | 0 <= i < |r|
      ensures r[i] != '/'
    {
      assert r[i] == SafeChar(stamp[i]);
      assert stamp[i] in stamp;
    }
  }

  /** `get_base_filename_for_images`: the base name placed in the photo folder below the
      program's directory. For a timestamp without '/', the path splits back into that
      folder and the base name. */
  function BasePath(realPath: string, folder: string, stamp: string): (r: string)
    ensures '/' !in stamp ==> SplitLast(r) == (realPath + "/" + folder, BaseName(stamp))
  {
    var dir := realPath + "/" + folder;
    if '/' !in stamp then
      NoSlashInBaseName(stamp);
      SplitLastOfJoin(dir, BaseName(stamp));
      assert realPath + "/" + folder + "/" + BaseName(stamp) == dir + "/" + BaseName(stamp);
      realPath + "/" + folder + "/" + BaseName(stamp)
    else
      realPath + "/" + folder + "/" + BaseName(stamp)
  }

  /** The file `taking_photo` captures to: the base path with a ".jpg" extension. The
      extension keeps the directory and only lengthens the file name. */
  function PhotoPath(basePath: string): (r: string)
    ensures |r| == |basePath| + 4
    ensures SplitLast(r) == (SplitLast(basePath).0, SplitLast(basePath).1 + ".jpg")
  {
    var r := basePath + ".jpg";
    var (dir, name) := SplitLast(basePath);
    if '/' in basePath then
      assert r == dir + "/" + (name + ".jpg");
      SplitLastOfJoin(dir, name + ".jpg");
      r
    else
      assert '/' !in r by {
        forall i | 0 <= i < |r|
          ensures r[i] != '/'
        {
          if i < |basePath| {
            assert r[i] == basePath[i];
            assert basePath[i] in basePath;
          }
        }
      }
      r
  }

  /** Splits a path at its last '/' into directory and final component; a path without
      '/' is all final component. */
  function SplitLast(path: string): (r: (string, string))
    ensures '/' !in r.1
    ensures '/' in path ==> path == r.0 + "/" + r.1
    ensures '/' !in path ==> r == ("", path)
  {
    if |path| == 0 then ("", "")
    else
      var last := path[|path| - 1];
      var init := path[..|path| - 1];
      if last == '/' then
        assert path == init + "/" + "";
        (init, "")
      else
        var (dir, name) := SplitLast(init);
        assert path == init + [last];
        if '/' in init then
          assert path == dir + "/" + (name + [last]);
          (dir, name + [last])
        else
          (dir, name + [last])
  }

  /** Joining a directory and a slash-free name with '/' and splitting again gives back
      both parts. */
  lemma {:induction false} SplitLastOfJoin(dir: string, name: string)
    requires '/' !in name
    ensures SplitLast(dir + "/" + name) == (dir, name)
    decreases |name|
  {
    var path := dir + "/" + name;
    if |name| == 0 {
      assert path[..|path| - 1] == dir;
    } else {
      var shorter := name[..|name| - 1];
      assert path[..|path| - 1] == dir + "/" + shorter;
      assert path[|path| - 1] == name[|name| - 1];
      SplitLastOfJoin(dir, shorter);
      assert shorter + [name[|name| - 1]] == name;
    }
  }

  /** The photo lands in the configured folder under the program's directory, named
      after the capture's second with a ".jpg" extension, provided the timestamp has
      no '/' (the text `str(datetime)` produces never does). */
  lemma PhotoLandsInFolder(realPath: string, folder: string, stamp: string)
    requires '/' !in stamp
    ensures SplitLast(PhotoPath(BasePath(realPath, folder, stamp)))
      == (realPath + "/" + folder, BaseName(stamp) + ".jpg")
  {
  }

  /** The seconds part of a timestamp is kept whether or not a fraction follows it:
      `str(datetime)` leaves the ".ffffff" out when the microsecond is 0. */
  lemma {:induction false} SecondsPart(seconds: string, frac: string)
    requires '.' !in seconds
    ensures BeforeFirstDot(seconds) == seconds
    ensures BeforeFirstDot(seconds + "." + frac) == seconds
    decreases |seconds|
  {
    var s := seconds + "." + frac;
    if |seconds| > 0 {
      SecondsPart(seconds[1..], frac);
      assert seconds[0] in seconds;
      assert s[0] == seconds[0] && s[1..] == seconds[1..] + "." + frac;
      assert BeforeFirstDot(s) == [seconds[0]] + BeforeFirstDot(s[1..]);
      assert BeforeFirstDot(seconds) == [seconds[0]] + BeforeFirstDot(seconds[1..]);
      assert [seconds[0]] + seconds[1..] == seconds;
    } else {
      assert s[0] == '.';
    }
  }

  /** Two captures within the same second get the same base name: whatever follows the
      seconds' dot is dropped, so names collide (the program adds no counter). */
  lemma SameSecondSameName(stamp1: string, stamp2: string)
    requires BeforeFirstDot(stamp1) == BeforeFirstDot(stamp2)
    ensures BaseName(stamp1) == BaseName(stamp2)
  {
    var a, b := BaseName(stamp1), BaseName(stamp2);
    var seconds := BeforeFirstDot(stamp1);
    forall i | 0 <= i < |a|
      ensures a[i] == b[i]
    {
      assert stamp1[i] == seconds[i] == stamp2[i];
    }
  }

  /** A stamp printed with a fraction and the same stamp printed without one (at a
      whole second) name the same file. */
  lemma WithOrWithoutFraction(seconds: string, frac: string)
    requires '.' !in seconds
    ensures BaseName(seconds) == BaseName(seconds + "." + frac)
  {
    SecondsPart(seconds, frac);
    SameSecondSameName(seconds, seconds + "." + frac);
  }
}
