/**
 * The content type a dynamic endpoint is served with: the text after the last
 * `.` of the last `/`-segment of the request path, looked up in a fixed table
 * of four extensions (internal/fileserver/fileserver.go, dynReadHandler).
 */
module ContentType {

  /** Go's `strings.Split(s, sep)` for a one-character separator. */
  function Split(s: string, sep: char): (parts: seq<string>)
    ensures |parts| > 0
    ensures forall i :: 0 <= i < |parts| ==> sep !in parts[i]
    ensures Join(parts, sep) == s
    decreases |s|
  {
    if s == [] then [""]
    else
      var rest := Split(s[1..], sep);
      if s[0] == sep then [""] + rest
      else
        assert s == [s[0]] + s[1..];
        JoinCons(s[0], rest, sep);
        [[s[0]] + rest[0]] + rest[1..]
  }

  /** Go's `strings.Join(parts, string(sep))`, the inverse of `Split`. */
  function Join(parts: seq<string>, sep: char): string
    requires |parts| > 0
  {
    if |parts| == 1 then parts[0] else parts[0] + [sep] + Join(parts[1..], sep)
  }

  lemma JoinCons(c: char, parts: seq<string>, sep: char)
    requires |parts| > 0
    ensures Join([[c] + parts[0]] + parts[1..], sep) == [c] + Join(parts, sep)
  {
    var q := [[c] + parts[0]] + parts[1..];
    assert q[1..] == parts[1..];
  }

  /** `p := strings.Split(s, sep); p[len(p)-1]`. */
  function LastPiece(s: string, sep: char): string {
    var parts := Split(s, sep);
    parts[|parts| - 1]
  }

  /** The extension dynReadHandler switches on: last `.`-piece of the last `/`-segment. */
  function Extension(urlPath: string): string {
    LastPiece(LastPiece(urlPath, '/'), '.')
  }

  /** The Content-Type header of a dynamic read of `urlPath`. */
  function ContentTypeOf(urlPath: string): string {
    match Extension(urlPath)
    case "html" => "text/html"
    case "json" => "application/json"
    case "xml" => "application/xml"
    case "pdf" => "application/pdf"
    case _ => "text/plain"
  }

  /** Splitting a string without the separator yields the string itself. */
  lemma {:induction false} SplitWithoutSep(s: string, sep: char)
    requires sep !in s
    ensures Split(s, sep) == [s]
    decreases |s|
  {
    if s != [] {
      SplitWithoutSep(s[1..], sep);
      assert s == [s[0]] + s[1..];
    }
  }

  /** The last piece is everything after the last separator. */
  lemma {:induction false} SplitLastAfterSep(s: string, t: string, sep: char)
    requires sep !in t
    ensures |Split(s + [sep] + t, sep)| >= 2
    ensures LastPiece(s + [sep] + t, sep) == t
    decreases |s|
  {
    var w := s + [sep] + t;
    if s == [] {
      assert w == [sep] + t;
      assert w[1..] == t;
      SplitWithoutSep(t, sep);
    } else {
      assert w[1..] == s[1..] + [sep] + t;
      SplitLastAfterSep(s[1..], t, sep);
    }
  }

  /**
   * Every string is either free of the separator, and then it is its own last
   * piece, or it is some prefix, the separator and a separator-free last piece.
   */
  lemma LastPieceIsSuffix(s: string, sep: char)
    ensures sep !in LastPiece(s, sep)
    ensures sep !in s ==> LastPiece(s, sep) == s
    ensures sep in s ==> exists k :: 0 <= k < |s| && s[k] == sep &&
                                     s[k + 1..] == LastPiece(s, sep)
  {
    if sep in s {
      var k :| 0 <= k < |s| && s[k] == sep;
      while sep in s[k + 1..]
        invariant 0 <= k < |s| && s[k] == sep
        decreases |s| - k
      {
        var j :| 0 <= j < |s[k + 1..]| && s[k + 1..][j] == sep;
        k := k + 1 + j;
      }
      assert s == s[..k] + [sep] + s[k + 1..];
      SplitLastAfterSep(s[..k], s[k + 1..], sep);
    } else {
      SplitWithoutSep(s, sep);
    }
  }

  /**
   * A request path whose last segment is `name.ext` (no `/` in either, no `.`
   * in `ext`) is served with the type the table gives `ext`.
   */
  lemma ContentTypeOfNamedFile(dir: string, name: string, ext: string)
    requires '/' !in name && '/' !in ext && '.' !in ext
    ensures Extension(dir + "/" + name + "." + ext) == ext
    ensures ext == "html" ==> ContentTypeOf(dir + "/" + name + "." + ext) == "text/html"
    ensures ext == "json" ==> ContentTypeOf(dir + "/" + name + "." + ext) == "application/json"
    ensures ext == "xml" ==> ContentTypeOf(dir + "/" + name + "." + ext) == "application/xml"
    ensures ext == "pdf" ==> ContentTypeOf(dir + "/" + name + "." + ext) == "application/pdf"
    ensures ext !in ["html", "json", "xml", "pdf"] ==>
              ContentTypeOf(dir + "/" + name + "." + ext) == "text/plain"
  {
    var seg := name + "." + ext;
    assert dir + "/" + name + "." + ext == dir + ['/'] + seg;
    assert '/' !in seg by {
      assert forall i :: 0 <= i < |seg| ==> seg[i] == (if i < |name| then name[i] else if i == |name| then '.' else ext[i - |name| - 1]);
    }
    SplitLastAfterSep(dir, seg, '/');
    assert seg == name + ['.'] + ext;
    SplitLastAfterSep(name, ext, '.');
  }

  /** A last segment without a `.` is looked up whole, so `/dyn/json` is served as JSON. */
  lemma ContentTypeOfDotlessName(dir: string, name: string)
    requires '/' !in name && '.' !in name
    ensures Extension(dir + "/" + name) == name
    ensures name == "json" ==> ContentTypeOf(dir + "/" + name) == "application/json"
  {
    assert dir + "/" + name == dir + ['/'] + name;
    SplitLastAfterSep(dir, name, '/');
    SplitWithoutSep(name, '.');
  }
}
