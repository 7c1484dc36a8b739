/** How `download` turns a URL into the place it saves the file: the last
    `/`-separated part of the URL, joined onto the download directory the
    way `pathlib` joins one relative component. */
module Paths {

  /** The download directory, relative to the working directory. */
  const DownloadDir: string := "sounds"

  /** `sep.join(parts)`. */
  function Join(parts: seq<string>, sep: char): string
  {
    if |parts| == 0 then ""
    else if |parts| == 1 then parts[0]
    else parts[0] + [sep] + Join(parts[1..], sep)
  }

  /** `s.split(sep)` for a one-character separator: never empty, no part
      holds the separator, and joining the parts back gives `s`. */
  function Split(s: string, sep: char): (parts: seq<string>)
    ensures |parts| >= 1
    ensures forall i :: 0 <= i < |parts| ==> sep !in parts[i]
    ensures Join(parts, sep) == s
  {
    if s == [] then [""]
    else
      var rest := Split(s[1..], sep);
      if s[0] == sep then
        assert ([""] + rest)[1..] == rest;
        [""] + rest
      else
        var parts := [[s[0]] + rest[0]] + rest[1..];
        assert parts[1..] == rest[1..];
        assert s == [s[0]] + s[1..];
        parts
  }

  /** Splitting a string with no separator in it gives that string alone. */
  lemma {:induction false} SplitWithoutSep(x: string, sep: char)
    requires sep !in x
    ensures Split(x, sep) == [x]
  {
    if x != [] {
      assert sep !in x[1..] by {
        forall k | 0 <= k < |x[1..]| ensures x[1..][k] != sep {
          assert x[1..][k] == x[k + 1];
        }
      }
      SplitWithoutSep(x[1..], sep);
      assert [x[0]] + x[1..] == x;
    }
  }

  /** A separator-free head followed by a separator splits off as one part. */
  lemma {:induction false} SplitAtSep(x: string, y: string, sep: char)
    requires sep !in x
    ensures Split(x + [sep] + y, sep) == [x] + Split(y, sep)
  {
    if x == [] {
      assert x + [sep] + y == [sep] + y;
      assert ([sep] + y)[1..] == y;
    } else {
      var s := x + [sep] + y;
      assert s[0] == x[0];
      assert s[1..] == x[1..] + [sep] + y;
      assert sep !in x[1..] by {
        forall k | 0 <= k < |x[1..]| ensures x[1..][k] != sep {
          assert x[1..][k] == x[k + 1];
        }
      }
      SplitAtSep(x[1..], y, sep);
      assert [x[0]] + x[1..] == x;
    }
  }

  /** The other direction of the round trip: joining separator-free parts
      and splitting again gives the parts back. */
  lemma {:induction false} SplitJoin(parts: seq<string>, sep: char)
    requires |parts| >= 1
    requires forall i :: 0 <= i < |parts| ==> sep !in parts[i]
    ensures Split(Join(parts, sep), sep) == parts
  {
    if |parts| == 1 {
      SplitWithoutSep(parts[0], sep);
    } else {
      SplitJoin(parts[1..], sep);
      SplitAtSep(parts[0], Join(parts[1..], sep), sep);
      assert [parts[0]] + parts[1..] == parts;
    }
  }

  /** The last of several joined parts is a suffix preceded by a separator;
      the only part is the whole string. */
  lemma {:induction false} JoinLast(parts: seq<string>, sep: char)
    requires |parts| >= 1
    ensures var s, last := Join(parts, sep), parts[|parts| - 1];
      && |last| <= |s| && s[|s| - |last|..] == last
      && (|parts| == 1 ==> last == s)
      && (|parts| > 1 ==> |last| < |s| && s[|s| - |last| - 1] == sep)
  {
    if |parts| > 1 {
      JoinLast(parts[1..], sep);
      var tail := Join(parts[1..], sep);
      var s := parts[0] + [sep] + tail;
      var last := parts[|parts| - 1];
      assert last == parts[1..][|parts[1..]| - 1];
      assert s[|s| - |tail|..] == tail;
      if |parts| == 2 {
        assert s[|s| - |last| - 1] == sep;
      } else {
        assert s[|s| - |last| - 1] == tail[|tail| - |last| - 1];
      }
    }
  }

  /** `url.split("/")[-1]`: the part of the URL after its last `/`. It is a
      suffix of the URL without `/`, it follows a `/` unless it is the whole
      URL, and it is the whole URL when the URL has no `/`. */
  function FileName(url: string): (name: string)
    ensures '/' !in name
    ensures |name| <= |url| && url[|url| - |name|..] == name
    ensures |name| < |url| ==> url[|url| - |name| - 1] == '/'
    ensures '/' !in url ==> name == url
  {
    var parts := Split(url, '/');
    JoinLast(parts, '/');
    parts[|parts| - 1]
  }

  /** No position of a `/`-free suffix holds a `/`. */
  lemma SuffixWithoutSlash(url: string, name: string)
    requires '/' !in name
    requires |name| <= |url| && url[|url| - |name|..] == name
    ensures forall k :: |url| - |name| <= k < |url| ==> url[k] != '/'
  {
    forall k | |url| - |name| <= k < |url| ensures url[k] != '/' {
      assert url[k] == name[k - (|url| - |name|)];
    }
  }

  /** The contract of `FileName` pins it down: any suffix with those
      properties is the file name. */
  lemma FileNameUnique(url: string, name: string)
    requires '/' !in name
    requires |name| <= |url| && url[|url| - |name|..] == name
    requires |name| < |url| ==> url[|url| - |name| - 1] == '/'
    ensures name == FileName(url)
  {
    var f := FileName(url);
    SuffixWithoutSlash(url, name);
    SuffixWithoutSlash(url, f);
    assert |name| == |f|;
  }

  /** A URL that ends in `/` has an empty file name. */
  lemma FileNameOfDirectoryUrl(url: string)
    requires |url| > 0 && url[|url| - 1] == '/'
    ensures FileName(url) == ""
  {
    SuffixWithoutSlash(url, FileName(url));
  }

  /** Whether `pathlib` drops this component when joining. */
  predicate Collapses(name: string)
  {
    name == "" || name == "."
  }

  /** `base / name` in `pathlib` for a name without `/`: an empty name or
      `.` is dropped and leaves `base` itself, any other name becomes a
      child of `base`. */
  function JoinPath(base: string, name: string): (p: string)
    requires '/' !in name
    ensures p == base <==> Collapses(name)
    ensures !Collapses(name) ==>
      (|p| == |base| + 1 + |name| && p[..|base|] == base && p[|base|] == '/' && p[|base| + 1..] == name)
  {
    if Collapses(name) then base else base + "/" + name
  }

  /** `Path(DL_DIR) / filename` for the URL's file name: the download
      directory itself when the name collapses, and otherwise an entry
      directly inside it whose own last segment is the URL's file name. */
  function SavePath(url: string): (p: string)
    ensures p == DownloadDir <==> Collapses(FileName(url))
    ensures p != DownloadDir ==>
      (|p| > |DownloadDir| + 1 && p[..|DownloadDir| + 1] == DownloadDir + "/" && FileName(p) == FileName(url))
    ensures p != DownloadDir ==> p[|DownloadDir| + 1..] == FileName(url)
  {
    var name := FileName(url);
    var p := JoinPath(DownloadDir, name);
    if Collapses(name) then p
    else
      assert p[..|DownloadDir| + 1] == DownloadDir + "/";
      FileNameUnique(p, name);
      p
  }

  /** Two URLs are saved to the same path exactly when their file names are
      equal or both collapse into the download directory. */
  lemma SavePathsCollide(u: string, v: string)
    ensures SavePath(u) == SavePath(v) <==>
      FileName(u) == FileName(v) || (Collapses(FileName(u)) && Collapses(FileName(v)))
  {
    var a, b := FileName(u), FileName(v);
    var prefix := DownloadDir + "/";
    if SavePath(u) == SavePath(v) && !Collapses(a) && !Collapses(b) {
      assert SavePath(u) == prefix + a && SavePath(v) == prefix + b;
      assert a == (prefix + a)[|prefix|..];
      assert b == (prefix + b)[|prefix|..];
    }
  }

  /** A URL ending in `/` is saved to the download directory itself. */
  lemma SavePathOfDirectoryUrl(url: string)
    requires |url| > 0 && url[|url| - 1] == '/'
    ensures SavePath(url) == DownloadDir
  {
    FileNameOfDirectoryUrl(url);
  }
}
