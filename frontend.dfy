/** The front-end router's path classification and HTML fix-ups: which
    requests get the single-page `index.html`, which are static files, which
    pre-compressed variant to serve, which MIME type to send, and the two
    rewrites applied to served HTML. */
module Frontend {
  import opened Wrappers
  import opened Text

  /** `min`. */
  function Min(a: int, b: int): (m: int)
    ensures m <= a && m <= b
    ensures m == a || m == b
  {
    if a < b then a else b
  }

  // ---------------------------------------------------------------------
  // Article ids: the regular expression ^/posts/([^/]+)$
  // ---------------------------------------------------------------------

  const PostsPrefix := "/posts/"

  /** `extractArticleIDFromPath`: the single path segment after "/posts/",
      or "unknown" when the path has any other shape. */
  function ExtractArticleId(path: string): (id: string)
    ensures id == "unknown" || (path == PostsPrefix + id && id != [] && '/' !in id)
    ensures HasPrefix(path, PostsPrefix) && |path| > |PostsPrefix| && '/' !in path[|PostsPrefix|..]
            ==> path == PostsPrefix + id
  {
    if HasPrefix(path, PostsPrefix) && |path| > |PostsPrefix| && '/' !in path[|PostsPrefix|..] then
      path[|PostsPrefix|..]
    else
      "unknown"
  }

  lemma ArticleIdRoundTrip(id: string)
    requires id != [] && '/' !in id
    ensures ExtractArticleId(PostsPrefix + id) == id
  {
    assert (PostsPrefix + id)[..|PostsPrefix|] == PostsPrefix;
    assert (PostsPrefix + id)[|PostsPrefix|..] == id;
  }

  // ---------------------------------------------------------------------
  // Pre-compressed variants
  // ---------------------------------------------------------------------

  /** `getAcceptedEncoding`: brotli is preferred over gzip; "" means serve
      the file uncompressed. */
  function AcceptedEncoding(acceptEncoding: string): (e: string)
    ensures e == "br" <==> Contains(acceptEncoding, "br")
    ensures e == "gzip" <==> !Contains(acceptEncoding, "br") && Contains(acceptEncoding, "gzip")
    ensures e == "" <==> !Contains(acceptEncoding, "br") && !Contains(acceptEncoding, "gzip")
  {
    if acceptEncoding == "" then
      assert !Contains(acceptEncoding, "br") && !Contains(acceptEncoding, "gzip");
      ""
    else if Contains(acceptEncoding, "br") then "br"
    else if Contains(acceptEncoding, "gzip") then "gzip"
    else ""
  }

  datatype CompressedFile = CompressedFile(path: string, contentEncoding: string)

  /** The variant `tryServeCompressedFile` looks for: the compressed file's
      path and the `Content-Encoding` it is served with. */
  function CompressedVariant(basePath: string, acceptEncoding: string): (r: Option<CompressedFile>)
    ensures r.None? <==> AcceptedEncoding(acceptEncoding) == ""
    ensures r.Some? ==> r.value.contentEncoding == AcceptedEncoding(acceptEncoding)
    ensures r.Some? && r.value.contentEncoding == "br" ==> r.value.path == basePath + ".br"
    ensures r.Some? && r.value.contentEncoding == "gzip" ==> r.value.path == basePath + ".gz"
  {
    match AcceptedEncoding(acceptEncoding)
    case "br" => Some(CompressedFile(basePath + ".br", "br"))
    case "gzip" => Some(CompressedFile(basePath + ".gz", "gzip"))
    case _ => None
  }

  // ---------------------------------------------------------------------
  // MIME types
  // ---------------------------------------------------------------------

  const OctetStream := "application/octet-stream"

  /** `getContentType`: keyed on the lower-cased extension. */
  function ContentType(filePath: string): (t: string)
    ensures Ext(filePath) == "" ==> t == OctetStream
    ensures t == OctetStream <==> ToLower(Ext(filePath)) !in TypedExtensions
    ensures t == "text/html; charset=utf-8" <==> ToLower(Ext(filePath)) == ".html"
  {
    MimeType(ToLower(Ext(filePath)))
  }

  /** The extensions `getContentType` names a type for. */
  const TypedExtensions: seq<string> :=
    [".js", ".css", ".html", ".json", ".svg", ".png", ".jpg", ".jpeg", ".gif", ".ico", ".woff", ".woff2", ".ttf"]

  /** The type table: every listed extension has a type of its own, except
      that ".jpg" and ".jpeg" share one; anything else is an octet stream. */
  function MimeType(ext: string): (t: string)
    ensures t == OctetStream <==> ext !in TypedExtensions
    ensures t == "text/html; charset=utf-8" <==> ext == ".html"
    ensures t == "image/jpeg" <==> ext == ".jpg" || ext == ".jpeg"
  {
    match ext
    case ".js" => "application/javascript; charset=utf-8"
    case ".css" => "text/css; charset=utf-8"
    case ".html" => "text/html; charset=utf-8"
    case ".json" => "application/json; charset=utf-8"
    case ".svg" => "image/svg+xml"
    case ".png" => "image/png"
    case ".jpg" => "image/jpeg"
    case ".jpeg" => "image/jpeg"
    case ".gif" => "image/gif"
    case ".ico" => "image/x-icon"
    case ".woff" => "font/woff"
    case ".woff2" => "font/woff2"
    case ".ttf" => "font/ttf"
    case _ => OctetStream
  }

  /** `isHTMLFile`: the files typed as HTML, and ".htm" files, which are
      typed as an octet stream. */
  function IsHTMLFile(filePath: string): (b: bool)
    ensures b <==> ContentType(filePath) == "text/html; charset=utf-8" || ToLower(Ext(filePath)) == ".htm"
    ensures b ==> Ext(filePath) != ""
  {
    ToLower(Ext(filePath)) in [".html", ".htm"]
  }

  lemma LowerCharFacts(c: char)
    ensures LowerChar(c) == '.' <==> c == '.'
    ensures LowerChar(c) == '/' <==> c == '/'
  {
  }

  lemma ToLowerSlice(s: string, n: nat)
    requires n <= |s|
    ensures ToLower(s)[..n] == ToLower(s[..n])
    ensures ToLower(s)[n..] == ToLower(s[n..])
  {
    var low := ToLower(s);
    assert forall i :: 0 <= i < n ==> low[..n][i] == ToLower(s[..n])[i];
    assert forall i :: 0 <= i < |s| - n ==> low[n..][i] == ToLower(s[n..])[i];
  }

  /** Lower-casing a path and taking its extension commute. */
  lemma {:induction false} ExtToLower(path: string)
    ensures Ext(ToLower(path)) == ToLower(Ext(path))
    decreases |path|
  {
    if path == [] {
      assert ToLower(path) == [];
    } else {
      var n := |path| - 1;
      var init, c := path[..n], path[n];
      var low := ToLower(path);
      assert path == init + [c];
      ToLowerAppend(init, [c]);
      assert low == ToLower(init) + [LowerChar(c)];
      assert low[..n] == ToLower(init) && low[n] == LowerChar(c);
      LowerCharFacts(c);
      if c == '/' {
        assert Ext(low) == [] && Ext(path) == [];
      } else if c == '.' {
        assert Ext(low) == ['.'] && Ext(path) == ['.'];
        assert ToLower(['.']) == ['.'];
      } else {
        ExtToLower(init);
        var e := Ext(init);
        assert Ext(path) == (if e == [] then [] else e + [c]);
        assert Ext(low) == (if ToLower(e) == [] then [] else ToLower(e) + [LowerChar(c)]);
        if e != [] {
          ToLowerAppend(e, [c]);
        }
      }
    }
  }

  lemma ToLowerAppend(a: string, b: string)
    ensures ToLower(a + b) == ToLower(a) + ToLower(b)
  {
    var x, y := ToLower(a + b), ToLower(a) + ToLower(b);
    forall i | 0 <= i < |x|
      ensures x[i] == y[i]
    {
      if i < |a| {
        assert (a + b)[i] == a[i];
      } else {
        assert (a + b)[i] == b[i - |a|];
      }
    }
  }

  lemma ToLowerIdempotent(s: string)
    ensures ToLower(ToLower(s)) == ToLower(s)
  {
  }

  /** The MIME type ignores letter case in the path. */
  lemma ContentTypeCaseInsensitive(filePath: string)
    ensures ContentType(ToLower(filePath)) == ContentType(filePath)
    ensures IsHTMLFile(ToLower(filePath)) == IsHTMLFile(filePath)
  {
    ExtToLower(filePath);
    ToLowerIdempotent(Ext(filePath));
  }

  /** Only the last path element decides the extension. */
  lemma {:induction false} ExtOfLastElement(dir: string, name: string)
    ensures Ext(dir + "/" + name) == Ext(name)
    decreases |name|
  {
    var path := dir + "/" + name;
    if name == [] {
    } else {
      var n := |name| - 1;
      assert path[|path| - 1] == name[n];
      assert path[..|path| - 1] == dir + "/" + name[..n];
      if name[n] != '/' && name[n] != '.' {
        ExtOfLastElement(dir, name[..n]);
      }
    }
  }

  /** Every file `getContentType` types as HTML is an HTML file, while ".htm"
      files are HTML files that are served as an octet stream. */
  lemma HtmlTypeIsHtmlFile(filePath: string)
    ensures ContentType(filePath) == "text/html; charset=utf-8" ==> IsHTMLFile(filePath)
    ensures ToLower(Ext(filePath)) == ".htm"
            ==> IsHTMLFile(filePath) && ContentType(filePath) == OctetStream
  {
    var e := ToLower(Ext(filePath));
    if e == ".htm" {
      assert e !in TypedExtensions;
    }
  }

  // ---------------------------------------------------------------------
  // Static files and the single-page fallback
  // ---------------------------------------------------------------------

  /** `isStaticFileRequest`'s extensions, in the source's six rows. */
  const StaticExtensions: seq<string> :=
    ImageExtensions + ScriptExtensions + DocumentExtensions + FontExtensions + MediaExtensions + ArchiveExtensions
  const ImageExtensions: seq<string> := [".ico", ".png", ".jpg", ".jpeg", ".gif", ".svg", ".webp", ".bmp", ".tiff"]
  const ScriptExtensions: seq<string> := [".js", ".css", ".map"]
  const DocumentExtensions: seq<string> := [".pdf", ".txt", ".xml", ".json"]
  const FontExtensions: seq<string> := [".woff", ".woff2", ".ttf", ".eot", ".otf"]
  const MediaExtensions: seq<string> := [".mp4", ".mp3", ".wav", ".ogg", ".avi", ".mov"]
  const ArchiveExtensions: seq<string> := [".zip", ".rar", ".tar", ".gz", ".br"]

  /** `isStaticFileRequest`: a case-insensitive suffix match against the
      listed extensions. */
  function IsStaticFileRequest(filePath: string): (b: bool)
    ensures b <==> ToLower(Ext(filePath)) in StaticExtensions
  {
    StaticFileByExtension(filePath);
    exists ext :: ext in StaticExtensions && HasSuffix(ToLower(filePath), ext)
  }

  /** Each static extension is a '.' followed by neither '.' nor '/', so it
      is exactly the extension of any path it ends. */
  lemma StaticExtensionsStartWithDot()
    ensures forall ext :: ext in StaticExtensions ==> DotExtension(ext)
  {
    DotExtensions(ImageExtensions);
    DotExtensions(ScriptExtensions);
    DotExtensions(DocumentExtensions);
    DotExtensions(FontExtensions);
    DotExtensions(MediaExtensions);
    DotExtensions(ArchiveExtensions);
  }

  /** A '.' followed by at least one character that is neither '.' nor '/'. */
  predicate DotExtension(ext: string) {
    |ext| >= 2 && ext[0] == '.' && forall i :: 1 <= i < |ext| ==> ext[i] != '.' && ext[i] != '/'
  }

  lemma DotExtensions(exts: seq<string>)
    requires exts in [ImageExtensions, ScriptExtensions, DocumentExtensions,
                      FontExtensions, MediaExtensions, ArchiveExtensions]
    ensures forall ext :: ext in exts ==> DotExtension(ext)
  {
  }

  lemma StaticFileByExtension(filePath: string)
    ensures (exists ext :: ext in StaticExtensions && HasSuffix(ToLower(filePath), ext))
            <==> ToLower(Ext(filePath)) in StaticExtensions
  {
    var low := ToLower(filePath);
    ExtToLower(filePath);
    StaticExtensionsStartWithDot();
    if ext :| ext in StaticExtensions && HasSuffix(low, ext) {
      ExtOfSuffix(low, ext);
    }
    if Ext(low) in StaticExtensions {
      assert HasSuffix(low, Ext(low));
    }
  }

  /** The check ignores letter case. */
  lemma StaticFileCaseInsensitive(filePath: string)
    ensures IsStaticFileRequest(ToLower(filePath)) == IsStaticFileRequest(filePath)
  {
    ToLowerIdempotent(filePath);
  }

  /** Every static extension starts with '.', so a static file request always
      contains a '.'. */
  lemma StaticFileHasDot(filePath: string)
    requires IsStaticFileRequest(filePath)
    ensures '.' in filePath
  {
    var ext :| ext in StaticExtensions && HasSuffix(ToLower(filePath), ext);
    StaticExtensionsStartWithDot();
    var low := ToLower(filePath);
    var k := |low| - |ext|;
    assert low[k] == low[k..][0] == ext[0] == '.';
    LowerCharFacts(filePath[k]);
  }

  const IndexExcludedPrefixes: seq<string> :=
    ["/api/", "/f/", "/needcache/", "/static/", "/robots.txt", "/sitemap.xml", "/favicon.ico"]

  /** The path belongs to the back end: it starts with an excluded prefix or
      equals one without its trailing slash. */
  predicate IndexExcluded(path: string) {
    exists prefix :: prefix in IndexExcludedPrefixes
      && (HasPrefix(path, prefix) || path == TrimSuffix(prefix, "/"))
  }

  /** `shouldReturnIndexHTML`. */
  function ShouldReturnIndexHtml(path: string): (r: bool)
    ensures IndexExcluded(path) ==> !r
    ensures !IndexExcluded(path) && '.' in path ==> (r <==> !IsStaticFileRequest(path))
    ensures !IndexExcluded(path) && '.' !in path ==> r
  {
    if IndexExcluded(path) then false
    else if Contains(path, ".") then
      ContainsChar(path, '.');
      !IsStaticFileRequest(path)
    else
      ContainsChar(path, '.');
      true
  }

  lemma ContainsChar(s: string, c: char)
    ensures Contains(s, [c]) <==> c in s
  {
    if c in s {
      var i :| 0 <= i < |s| && s[i] == c;
      assert s[i..i + 1] == [c];
      ContainsAt(s, [c], i);
    } else {
      if Contains(s, [c]) {
        var i := IndexOf(s, [c]).value;
        OccursAtChars(s, [c], i, 0);
        assert false;
      }
    }
  }

  // ---------------------------------------------------------------------
  // Back-office paths
  // ---------------------------------------------------------------------

  const AdminPrefixes: seq<string> := ["/admin", "/login"]

  /** `isAdminPath`: the back-office entry points themselves or anything below
      them. */
  function IsAdminPath(path: string): (b: bool)
    ensures b <==>
      path == "/admin" || path == "/login" || HasPrefix(path, "/admin/") || HasPrefix(path, "/login/")
  {
    assert AdminPrefixes[0] + "/" == "/admin/" && AdminPrefixes[1] + "/" == "/login/";
    exists prefix :: prefix in AdminPrefixes && (path == prefix || HasPrefix(path, prefix + "/"))
  }

  lemma ExcludedPrefixShape()
    ensures forall prefix :: prefix in IndexExcludedPrefixes ==>
      var bare := TrimSuffix(prefix, "/");
      2 <= |bare| <= |prefix| && bare == prefix[..|bare|] && prefix[1] != 'l'
      && (prefix[1] == 'a' ==> 3 <= |bare| && prefix[2] == 'p')
  {
  }

  lemma AdminPathShape(path: string)
    requires IsAdminPath(path)
    ensures |path| >= 6 && (path[1] == 'l' || (path[1] == 'a' && path[2] == 'd'))
  {
    var prefix :| prefix in AdminPrefixes && (path == prefix || HasPrefix(path, prefix + "/"));
    if path != prefix {
      assert path[..|prefix + "/"|] == prefix + "/";
      assert path[1] == prefix[1] && path[2] == prefix[2];
    }
  }

  /** A back-office page without a '.' is always answered with the
      single-page `index.html`: no excluded prefix covers it. */
  lemma AdminPagesGetIndexHtml(path: string)
    requires IsAdminPath(path) && '.' !in path
    ensures ShouldReturnIndexHtml(path)
  {
    AdminPathShape(path);
    if IndexExcluded(path) {
      var prefix :| prefix in IndexExcludedPrefixes
        && (HasPrefix(path, prefix) || path == TrimSuffix(prefix, "/"));
      ExcludedPrefixShape();
      assert false;
    }
  }

  // ---------------------------------------------------------------------
  // Page files
  // ---------------------------------------------------------------------

  const PostTemplate := "posts/__template__.html"

  /** `getPageHTMLPath`: the HTML file a page route is served from. */
  function PageHtmlPath(requestPath: string): (file: string)
    ensures HasSuffix(file, ".html")
    ensures TrimSuffix(requestPath, "/") in {"", "/"} ==> file == "index.html"
  {
    var trimmed := TrimSuffix(requestPath, "/");
    if trimmed == "" || trimmed == "/" then
      "index.html"
    else
      var relative := TrimPrefix(trimmed, "/");
      if HasPrefix(relative, "posts/") && CountChar(relative, '/') == 1 then
        PostTemplate
      else
        assert (relative + ".html")[|relative|..] == ".html";
        relative + ".html"
  }

  /** One trailing slash does not change the page file. */
  lemma PageHtmlPathTrailingSlash(requestPath: string)
    requires !HasSuffix(requestPath, "/")
    ensures PageHtmlPath(requestPath + "/") == PageHtmlPath(requestPath)
  {
    assert (requestPath + "/")[|requestPath|..] == "/";
    assert (requestPath + "/")[..|requestPath|] == requestPath;
  }

  /** Any other route "/" + rel is served from rel + ".html", with or
      without a trailing slash. */
  lemma PageHtmlPathOfRoute(rel: string)
    requires rel != "" && !HasSuffix(rel, "/")
    requires !(HasPrefix(rel, "posts/") && CountChar(rel, '/') == 1)
    ensures PageHtmlPath("/" + rel) == rel + ".html"
    ensures PageHtmlPath("/" + rel + "/") == rel + ".html"
  {
    var path := "/" + rel;
    assert path[|path| - 1] == rel[|rel| - 1];
    assert !HasSuffix(path, "/");
    assert path != "" && path != "/";
    assert path[..1] == "/" && path[1..] == rel;
    assert TrimPrefix(TrimSuffix(path, "/"), "/") == rel;
    PageHtmlPathTrailingSlash(path);
  }

  lemma {:induction false} CountCharAppend(a: string, b: string, c: char)
    ensures CountChar(a + b, c) == CountChar(a, c) + CountChar(b, c)
    decreases |a|
  {
    if a != [] {
      assert (a + b)[0] == a[0];
      assert (a + b)[1..] == a[1..] + b;
      CountCharAppend(a[1..], b, c);
    } else {
      assert a + b == b;
    }
  }

  /** Every path `extractArticleIDFromPath` accepts is served from the
      article template, and so is the same path with a trailing slash. */
  lemma ArticlePagesUseTemplate(id: string)
    requires id != [] && '/' !in id
    ensures PageHtmlPath(PostsPrefix + id) == PostTemplate
    ensures PageHtmlPath(PostsPrefix + id + "/") == PostTemplate
  {
    var path := PostsPrefix + id;
    assert path[|path| - 1] == id[|id| - 1];
    assert !HasSuffix(path, "/");
    var relative := "posts/" + id;
    ArticleRelativePath(id);
    assert TrimPrefix(TrimSuffix(path, "/"), "/") == relative;
    PageHtmlPathTrailingSlash(path);
  }

  lemma ArticleRelativePath(id: string)
    requires '/' !in id
    ensures TrimPrefix(PostsPrefix + id, "/") == "posts/" + id
    ensures HasPrefix("posts/" + id, "posts/") && CountChar("posts/" + id, '/') == 1
  {
    var path := PostsPrefix + id;
    assert path[..1] == "/" && path[1..] == "posts/" + id;
    assert ("posts/" + id)[..6] == "posts/";
    CountCharAppend("posts/", id, '/');
    PostsSegmentCount();
  }

  lemma PostsSegmentCount()
    ensures CountChar("posts/", '/') == 1
  {
    assert "posts/" == "posts" + "/";
    CountCharAppend("posts", "/", '/');
    assert '/' !in "posts";
    assert "/"[1..] == [];
  }

  // ---------------------------------------------------------------------
  // Closing <script> tags
  // ---------------------------------------------------------------------

  /** The simple case folding of `(?i)` for the letters of "script": ASCII
      letters fold to lower case and U+017F (long s) folds to 's'. */
  function Fold(c: char): (d: char)
  {
    if c == 'ſ' then 's' else if 'A' <= c <= 'Z' then (c as int + 32) as char else c
  }

  /** `s` starts with a case-insensitive match of the lower-case literal `lit`. */
  predicate StartsWithFolded(s: string, lit: string) {
    |lit| <= |s| && forall k :: 0 <= k < |lit| ==> Fold(s[k]) == lit[k]
  }

  const OpenTagStart := "<script"
  const CloseTag := "</script>"

  /** The index of the first `c` in `s`. */
  function IndexOfChar(s: string, c: char): (r: Option<nat>)
    ensures r.Some? ==> r.value < |s| && s[r.value] == c && c !in s[..r.value]
    ensures r.None? ==> c !in s
  {
    if s == [] then None
    else if s[0] == c then Some(0)
    else
      match IndexOfChar(s[1..], c)
      case None => None
      case Some(i) =>
        assert s[..i + 1] == [s[0]] + s[1..][..i];
        Some(i + 1)
  }

  /** The number of matches `FindAllString` reports for `(?i)<script[^>]*>`:
      a match runs from "<script" to the first '>' after it, and scanning
      resumes behind that '>'. */
  function CountOpenTags(s: string): (n: nat)
    ensures n <= |s|
    decreases |s|
  {
    if s == [] then 0
    else if StartsWithFolded(s, OpenTagStart) then
      match IndexOfChar(s[|OpenTagStart|..], '>')
      case None => 0
      case Some(k) => 1 + CountOpenTags(s[|OpenTagStart| + k + 1..])
    else CountOpenTags(s[1..])
  }

  /** The number of matches `FindAllString` reports for `(?i)</script>`. */
  function CountCloseTags(s: string): (n: nat)
    ensures n <= |s|
    decreases |s|
  {
    if s == [] then 0
    else if StartsWithFolded(s, CloseTag) then 1 + CountCloseTags(s[|CloseTag|..])
    else CountCloseTags(s[1..])
  }

  /** `ensureScriptTagsClosed`: appends one "</script>" per opening tag
      that has no closing tag. */
  function EnsureScriptTagsClosed(html: string): (r: string)
    ensures HasPrefix(r, html)
    ensures CountOpenTags(html) <= CountCloseTags(html) ==> r == html
  {
    if html == "" then html
    else
      var opens, closes := CountOpenTags(html), CountCloseTags(html);
      if opens > closes then
        var fixed := html + Repeat(CloseTag, opens - closes);
        assert fixed[..|html|] == html;
        fixed
      else html
  }

  lemma FoldedAt(s: string, lit: string, k: nat)
    requires StartsWithFolded(s, lit) && k < |lit|
    ensures Fold(s[k]) == lit[k]
  {
  }

  /** No closing tag can start inside `a` and end inside `b` when `b` starts
      with '<', since "</script>" has no other '<'. */
  lemma {:induction false} CountCloseTagsAppend(a: string, b: string)
    requires b != [] && b[0] == '<'
    ensures CountCloseTags(a + b) == CountCloseTags(a) + CountCloseTags(b)
    decreases |a|
  {
    if a != [] {
      var s := a + b;
      if StartsWithFolded(s, CloseTag) {
        if |a| < |CloseTag| {
          FoldedAt(s, CloseTag, |a|);
          assert false;
        }
        assert StartsWithFolded(a, CloseTag) by {
          forall k | 0 <= k < |CloseTag| ensures Fold(a[k]) == CloseTag[k] {
            assert s[k] == a[k];
          }
        }
        assert s[|CloseTag|..] == a[|CloseTag|..] + b;
        CountCloseTagsAppend(a[|CloseTag|..], b);
      } else {
        assert !StartsWithFolded(a, CloseTag) by {
          if StartsWithFolded(a, CloseTag) {
            assert false;
          }
        }
        assert s[1..] == a[1..] + b;
        CountCloseTagsAppend(a[1..], b);
      }
    } else {
      assert a + b == b;
    }
  }

  lemma CloseTagCountsOnce()
    ensures CountCloseTags(CloseTag) == 1
  {
    assert StartsWithFolded(CloseTag, CloseTag);
    assert CloseTag[|CloseTag|..] == [];
  }

  lemma CountCloseTagsAppendTag(a: string)
    ensures CountCloseTags(a + CloseTag) == CountCloseTags(a) + 1
  {
    CloseTagCountsOnce();
    CountCloseTagsAppend(a, CloseTag);
  }

  lemma {:induction false} CountCloseTagsRepeat(a: string, n: nat)
    ensures CountCloseTags(a + Repeat(CloseTag, n)) == CountCloseTags(a) + n
    decreases n
  {
    RepeatShift(a, CloseTag, n);
    if n > 0 {
      CountCloseTagsAppendTag(a);
      CountCloseTagsRepeat(a + CloseTag, n - 1);
    }
  }

  /** After the fix-up the input's opening tags are all matched: the output
      holds as many closing tags as the larger of the two counts, and the
      input is kept as a prefix. */
  lemma EnsureScriptTagsClosedBalances(html: string)
    ensures CountCloseTags(EnsureScriptTagsClosed(html))
            == if CountOpenTags(html) > CountCloseTags(html) then CountOpenTags(html) else CountCloseTags(html)
  {
    if html != "" && CountOpenTags(html) > CountCloseTags(html) {
      CountCloseTagsRepeat(html, CountOpenTags(html) - CountCloseTags(html));
    }
  }

  // ---------------------------------------------------------------------
  // Back-office asset paths
  // ---------------------------------------------------------------------

  /** The quoting contexts and directories of `rewriteStaticPathsForAdmin`'s
      eight replacements, in the order they are applied. */
  const RuleParts: seq<(string, string)> := [
    ("src=\"", "assets/"), ("href=\"", "assets/"),
    ("src=\"", "static/"), ("href=\"", "static/"),
    ("url(\"", "static/"), ("url('", "static/"),
    ("url(\"", "assets/"), ("url('", "assets/")]

  /** A rule replaces `head + "/" + dir` by `head + "/admin-" + dir`. */
  function AdminRule(head: string, dir: string): (string, string) {
    (head + "/" + dir, head + "/admin-" + dir)
  }

  /** The eight (pattern, replacement) pairs, in order. */
  const AdminRewrites: seq<(string, string)> := [
    AdminRule("src=\"", "assets/"), AdminRule("href=\"", "assets/"),
    AdminRule("src=\"", "static/"), AdminRule("href=\"", "static/"),
    AdminRule("url(\"", "static/"), AdminRule("url('", "static/"),
    AdminRule("url(\"", "assets/"), AdminRule("url('", "assets/")]

  function ApplyRewrites(html: string, rules: seq<(string, string)>): string
    decreases |rules|
  {
    if rules == [] then html
    else ApplyRewrites(ReplaceAll(html, rules[0].0, rules[0].1), rules[1..])
  }

  /** `rewriteStaticPathsForAdmin`. */
  function RewriteStaticPathsForAdmin(html: string): (r: string)
    ensures forall i :: 0 <= i < |AdminRewrites| ==> !Contains(r, AdminRewrites[i].0)
  {
    RewritesLeaveNoPattern(html, 0);
    ApplyRewrites(html, AdminRewrites)
  }

  /** The position of the 'd' of "admin" in a replacement: no pattern
      contains a 'd', so no pattern can straddle it. */
  function Marker(rep: string): nat
  {
    if rep != [] && rep[0] == 'h' then 8 else 7
  }

  /** Every replacement is isolated from every pattern. */
  lemma AdminRewritesIsolated()
    ensures forall i, j :: 0 <= i < |AdminRewrites| && 0 <= j < |AdminRewrites| ==>
      Isolated(AdminRewrites[j].0, AdminRewrites[i].1, Marker(AdminRewrites[i].1))
  {
    var parts := RuleParts;
    assert |parts| == |AdminRewrites|;
    assert forall i :: 0 <= i < |parts| ==>
      parts[i].0 in RuleHeads && parts[i].1 in RuleDirs && AdminRewrites[i] == AdminRule(parts[i].0, parts[i].1);
    forall i, j | 0 <= i < |AdminRewrites| && 0 <= j < |AdminRewrites|
      ensures Isolated(AdminRewrites[j].0, AdminRewrites[i].1, Marker(AdminRewrites[i].1))
    {
      PatternShape(parts[j].0, parts[j].1);
      ReplacementShape(parts[i].0, parts[i].1);
    }
  }

  const RuleHeads: seq<string> := ["src=\"", "href=\"", "url(\"", "url('"]
  const RuleDirs: seq<string> := ["assets/", "static/"]

  predicate QuoteChar(c: char) { c == '"' || c == '\'' }

  predicate InitialChar(c: char) { c == 's' || c == 'h' || c == 'u' }

  /** What the isolation argument needs of a quoting context. */
  predicate HeadShaped(head: string) {
    && (|head| == 5 || |head| == 6)
    && (head[0] == 'h' <==> |head| == 6) && InitialChar(head[0]) && head[1] == 'r'
    && '/' !in head && 'd' !in head && QuoteChar(head[|head| - 1])
  }

  /** What the isolation argument needs of a directory. */
  predicate DirShaped(dir: string) {
    && |dir| == 7 && 'd' !in dir && dir[6] == '/' && (dir[5] == 's' || dir[5] == 'c')
    && forall k :: 0 <= k < |dir| && InitialChar(dir[k]) ==> k + 1 < |dir| && dir[k + 1] != 'r'
  }

  lemma HeadShape(head: string)
    requires head in RuleHeads
    ensures |head| == 5 || |head| == 6
    ensures (head[0] == 'h' <==> |head| == 6) && InitialChar(head[0]) && head[1] == 'r'
    ensures '/' !in head && 'd' !in head && QuoteChar(head[|head| - 1])
  {
  }

  lemma DirShape(dir: string)
    requires dir in RuleDirs
    ensures |dir| == 7 && 'd' !in dir && dir[6] == '/' && (dir[5] == 's' || dir[5] == 'c')
    ensures forall k :: 0 <= k < |dir| && InitialChar(dir[k]) ==> k + 1 < |dir| && dir[k + 1] != 'r'
  {
  }

  /** A pattern starts with one of "sr", "hr", "ur", ends in "s/" or "c/"
      and holds no 'd'. */
  lemma PatternShape(head: string, dir: string)
    requires head in RuleHeads && dir in RuleDirs
    ensures var q := AdminRule(head, dir).0;
      && 2 <= |q| && 'd' !in q && q[1] == 'r' && InitialChar(q[0])
      && q[|q| - 1] == '/' && (q[|q| - 2] == 's' || q[|q| - 2] == 'c')
  {
    HeadShape(head);
    DirShape(dir);
    var q := head + "/" + dir;
    assert q[0] == head[0] && q[1] == head[1];
    assert q[|q| - 1] == dir[6] && q[|q| - 2] == dir[5];
  }

  /** In a replacement the 'd' of "admin" sits at `Marker`; every '/' before
      it follows a quote, and no initial letter after it is followed by 'r'. */
  lemma ReplacementShape(head: string, dir: string)
    requires head in RuleHeads && dir in RuleDirs
    ensures var r := AdminRule(head, dir).1;
      var b := Marker(r);
      && b < |r| && r[b] == 'd'
      && (forall e :: 0 <= e < b && r[e] == '/' ==> 1 <= e && QuoteChar(r[e - 1]))
      && (forall j :: b < j < |r| && InitialChar(r[j]) ==> j + 1 < |r| && r[j + 1] != 'r')
  {
    HeadShape(head);
    DirShape(dir);
    ShapedReplacement(head, dir);
  }

  lemma ShapedReplacement(head: string, dir: string)
    requires HeadShaped(head) && DirShaped(dir)
    ensures var r := head + "/admin-" + dir;
      var b := Marker(r);
      && b < |r| && r[b] == 'd'
      && (forall e :: 0 <= e < b && r[e] == '/' ==> 1 <= e && QuoteChar(r[e - 1]))
      && (forall j :: b < j < |r| && InitialChar(r[j]) ==> j + 1 < |r| && r[j + 1] != 'r')
  {
    var r := head + "/admin-" + dir;
    var h := |head|;
    var mid := "/admin-";
    assert forall k :: 0 <= k < h ==> r[k] == head[k];
    assert forall k :: 0 <= k < 7 ==> r[h + k] == mid[k];
    assert forall k :: 0 <= k < |dir| ==> r[h + 7 + k] == dir[k];
    assert Marker(r) == h + 2;
    forall j | h + 2 < j < |r| && InitialChar(r[j])
      ensures j + 1 < |r| && r[j + 1] != 'r'
    {
      assert j >= h + 7;
      assert r[j] == dir[j - h - 7];
    }
  }

  lemma RewriteStepKeepsAbsent(html: string, k: nat, i: nat)
    requires i <= k < |AdminRewrites|
    requires i < k ==> !Contains(html, AdminRewrites[i].0)
    ensures !Contains(ReplaceAll(html, AdminRewrites[k].0, AdminRewrites[k].1), AdminRewrites[i].0)
  {
    AdminRewritesIsolated();
    var rule := AdminRewrites[k];
    ReplaceAllLeavesNoOccurrence(html, rule.0, rule.1, AdminRewrites[i].0, Marker(rule.1));
  }

  lemma {:induction false} RewritesLeaveNoPattern(html: string, k: nat)
    requires k <= |AdminRewrites|
    requires forall i :: 0 <= i < k ==> !Contains(html, AdminRewrites[i].0)
    ensures forall i :: 0 <= i < |AdminRewrites| ==> !Contains(ApplyRewrites(html, AdminRewrites[k..]), AdminRewrites[i].0)
    decreases |AdminRewrites| - k
  {
    var rules := AdminRewrites[k..];
    if k < |AdminRewrites| {
      var next := ReplaceAll(html, rules[0].0, rules[0].1);
      forall i | 0 <= i <= k ensures !Contains(next, AdminRewrites[i].0) {
        RewriteStepKeepsAbsent(html, k, i);
      }
      assert rules[1..] == AdminRewrites[k + 1..];
      RewritesLeaveNoPattern(next, k + 1);
    }
  }

  lemma {:induction false} ApplyRewritesAbsent(html: string, rules: seq<(string, string)>)
    requires forall i :: 0 <= i < |rules| ==> rules[i].0 != [] && !Contains(html, rules[i].0)
    ensures ApplyRewrites(html, rules) == html
    decreases |rules|
  {
    if rules != [] {
      ReplaceAllAbsent(html, rules[0].0, rules[0].1);
      ApplyRewritesAbsent(html, rules[1..]);
    }
  }

  /** Rewriting an already rewritten page changes nothing. */
  lemma RewriteStaticPathsIdempotent(html: string)
    ensures RewriteStaticPathsForAdmin(RewriteStaticPathsForAdmin(html)) == RewriteStaticPathsForAdmin(html)
  {
    var once := RewriteStaticPathsForAdmin(html);
    ApplyRewritesAbsent(once, AdminRewrites);
  }
}
