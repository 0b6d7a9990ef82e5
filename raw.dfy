/**
  The raw-file side of the repository (raw/raw.go): how Download routes a request URI, either to the
  download handler or to a redirect onto the owner's copy of a file, and the attribute map Upload hands to
  db.Write. HTTP itself is an input: the request URI and the `token` query value are strings, and the
  lookup db.UserFile(owner, file) is a function parameter.
 */
module Raw {
  import opened Wrappers
  import Text
  import C = Catalog
  import P = CatalogProps

  const RawPrefix := "/kurjun/rest/raw/"
  const FilePrefix := "/kurjun/rest/file/"
  const LegacyGet := "/kurjun/rest/raw/get"
  const DownloadPath := "/kurjun/rest/raw/download"

  /** The two rewrites of Download (raw/raw.go:57-58): the first of each pattern, in this order. */
  function Rewrite(uri: string): string {
    Text.Replace1(Text.Replace1(uri, FilePrefix, RawPrefix), LegacyGet, DownloadPath)
  }

  /** The path segments Download looks at: the rewritten URI without the raw prefix, split on '/'. */
  function Args(uri: string): (args: seq<string>)
    ensures |args| >= 1
  {
    Text.Split(Text.TrimPrefix(Rewrite(uri), RawPrefix), '/')
  }

  /** What Download decides: the download handler, a lookup of owner's file, or nothing. */
  datatype Route = Serve | Lookup(owner: string, file: string) | Ignore

  /** raw/raw.go:59-72. len(args) > 0 always holds: strings.Split never returns an empty slice. */
  function RouteOf(uri: string): Route {
    var args := Args(uri);
    if Text.HasPrefix(args[0], "download") then Serve
    else if |args| > 1 then Lookup(args[0], Text.Split(args[1], '?')[0])
    else Ignore
  }

  /** The location Download redirects to for a found file id. */
  function Target(id: string, token: string): string {
    DownloadPath + "?id=" + id + "&token=" + token
  }

  /** The response of Download. */
  datatype Action = Download | Redirect(location: string) | Nothing

  /**
    Download (raw/raw.go:56-77). `token` is the first `token` query value ("" without one) and
    `userFile(owner, file)` the ids db.UserFile lists; the redirect goes to the first of them.
   */
  function DownloadOf(uri: string, token: string, userFile: (string, string) -> seq<string>): Action {
    match RouteOf(uri)
    case Serve => Download
    case Ignore => Nothing
    case Lookup(owner, file) =>
      var list := userFile(owner, file);
      if |list| > 0 then Redirect(Target(list[0], token)) else Nothing
  }

  // ---------------------------------------------------------------------------------------------
  // Properties of the routing

  /** A pattern found at the very start of a string is found there first. */
  lemma IndexAtStart(p: string, y: string)
    ensures Text.Index(p + y, p) == Some(0)
  {
    assert (p + y)[..|p|] == p;
  }

  /** The first '/'-free segment of a string starting with a prefix p free of c still starts with p. */
  lemma BeforeKeepsPrefix(p: string, y: string, c: char)
    requires c !in p
    ensures Text.HasPrefix(Text.Before(p + y, c), p)
  {
    var s := p + y;
    assert s[..|p|] == p;
    if c in s {
      var i := Text.Find(s, c);
      assert s[..i][..|p|] == p;
    }
  }

  /** A URI in which neither rewrite pattern occurs is left as it is. */
  lemma RewriteNone(uri: string)
    requires Text.Index(uri, FilePrefix).None? && Text.Index(uri, LegacyGet).None?
    ensures Rewrite(uri) == uri
  {
  }

  /**
    The legacy route: `/kurjun/rest/file/get...` becomes `/kurjun/rest/raw/download...` and, whatever
    follows, goes to the download handler.
   */
  lemma LegacyGetServes(y: string)
    ensures Rewrite(FilePrefix + "get" + y) == DownloadPath + y
    ensures RouteOf(FilePrefix + "get" + y) == Serve
  {
    var uri := FilePrefix + "get" + y;
    assert uri == FilePrefix + ("get" + y);
    IndexAtStart(FilePrefix, "get" + y);
    var u1 := Text.Replace1(uri, FilePrefix, RawPrefix);
    assert u1 == RawPrefix + ("get" + y);
    assert u1 == LegacyGet + y;
    IndexAtStart(LegacyGet, y);
    var u2 := Text.Replace1(u1, LegacyGet, DownloadPath);
    assert u2 == DownloadPath + y;
    assert DownloadPath + y == RawPrefix + ("download" + y);
    IndexAtStart(RawPrefix, "download" + y);
    assert Text.TrimPrefix(u2, RawPrefix) == "download" + y;
    BeforeKeepsPrefix("download", y, '/');
    Text.SplitHead("download" + y, '/');
  }

  /** The raw route to the handler: a segment starting with `download`, when nothing is rewritten. */
  lemma DownloadServes(y: string)
    requires Text.Index(RawPrefix + "download" + y, FilePrefix).None?
    requires Text.Index(RawPrefix + "download" + y, LegacyGet).None?
    ensures RouteOf(RawPrefix + "download" + y) == Serve
  {
    var uri := RawPrefix + "download" + y;
    RewriteNone(uri);
    assert uri == RawPrefix + ("download" + y);
    IndexAtStart(RawPrefix, "download" + y);
    assert Text.TrimPrefix(uri, RawPrefix) == "download" + y;
    BeforeKeepsPrefix("download", y, '/');
    Text.SplitHead("download" + y, '/');
  }

  /**
    `/kurjun/rest/raw/<owner>/<rest>`, when nothing is rewritten and owner does not start with `download`,
    looks up owner's file: the second segment up to its first '?'; further segments are ignored.
   */
  lemma RouteSegments(owner: string, rest: string)
    requires '/' !in owner && !Text.HasPrefix(owner, "download")
    requires Text.Index(RawPrefix + owner + "/" + rest, FilePrefix).None?
    requires Text.Index(RawPrefix + owner + "/" + rest, LegacyGet).None?
    ensures RouteOf(RawPrefix + owner + "/" + rest) == Lookup(owner, Text.Before(Text.Before(rest, '/'), '?'))
  {
    var uri := RawPrefix + owner + "/" + rest;
    RewriteNone(uri);
    assert uri == RawPrefix + (owner + "/" + rest);
    IndexAtStart(RawPrefix, owner + "/" + rest);
    assert Text.TrimPrefix(uri, RawPrefix) == owner + "/" + rest;
    Text.SplitFirst(owner, rest, '/');
    Text.SplitHead(rest, '/');
    Text.SplitHead(Text.Before(rest, '/'), '?');
  }

  /** A single segment that does not start with `download` does nothing. */
  lemma RouteSingle(seg: string)
    requires '/' !in seg && !Text.HasPrefix(seg, "download")
    requires Text.Index(RawPrefix + seg, FilePrefix).None? && Text.Index(RawPrefix + seg, LegacyGet).None?
    ensures RouteOf(RawPrefix + seg) == Ignore
  {
    RewriteNone(RawPrefix + seg);
    IndexAtStart(RawPrefix, seg);
    Text.SplitNone(seg, '/');
  }

  /** Download redirects exactly when the route is a lookup that finds an id, and then to the first id. */
  lemma DownloadRedirects(uri: string, token: string, userFile: (string, string) -> seq<string>)
    ensures DownloadOf(uri, token, userFile).Redirect? <==>
              RouteOf(uri).Lookup? && |userFile(RouteOf(uri).owner, RouteOf(uri).file)| > 0
    ensures DownloadOf(uri, token, userFile).Redirect? ==>
              DownloadOf(uri, token, userFile).location ==
              DownloadPath + "?id=" + userFile(RouteOf(uri).owner, RouteOf(uri).file)[0] + "&token=" + token
    ensures DownloadOf(uri, token, userFile) == Download <==> RouteOf(uri) == Serve
  {
  }

  /** The redirect target, when the id and token hold neither rewrite pattern, is itself served by the handler. */
  lemma TargetServes(id: string, token: string)
    requires Text.Index(Target(id, token), FilePrefix).None? && Text.Index(Target(id, token), LegacyGet).None?
    ensures RouteOf(Target(id, token)) == Serve
  {
    var y := "?id=" + id + "&token=" + token;
    assert Target(id, token) == RawPrefix + "download" + y;
    DownloadServes(y);
  }

  // ---------------------------------------------------------------------------------------------
  // The info map of Upload

  /**
    raw/raw.go:19-36: nothing when the upload handler gives no md5 or no sha256; otherwise md5, sha256,
    type "raw" and the tag ("" when absent), and the first `version` form value when one was sent.
   */
  function UploadInfo(md5: string, sha256: string, versions: seq<string>, tag: string): (r: Option<map<string, string>>)
    ensures r.Some? <==> md5 != "" && sha256 != ""
    ensures r.Some? ==>
              && r.value.Keys == {"md5", "sha256", "type", "tag"} + (if versions != [] then {"version"} else {})
              && r.value["md5"] == md5 && r.value["sha256"] == sha256 && r.value["type"] == "raw"
              && r.value["tag"] == tag
              && (versions != [] ==> r.value["version"] == versions[0])
  {
    if |md5| == 0 || |sha256| == 0 then None
    else
      var info := map["md5" := md5, "sha256" := sha256, "type" := "raw"];
      var info := if |versions| != 0 then info["version" := versions[0]] else info;
      Some(info["tag" := tag])
  }

  /**
    The record db.Write makes of a raw upload (raw/raw.go:38-43), under a fresh id: Info shows the digests,
    type "raw" and the tag, a version only when one was sent, and whatever is stored under the md5 is
    left as it was.
   */
  lemma RawUploadRecord(s: C.State, owner: string, id: string, filename: string, md5: string, sha256: string,
                        versions: seq<string>, tag: string, now: C.Time, size: Option<nat>)
    requires C.Valid(s)
    requires id != "" && id !in s.files && filename != "" && md5 != "" && sha256 != ""
    ensures UploadInfo(md5, sha256, versions, tag).Some?
    ensures C.Write(s, owner, id, filename, [UploadInfo(md5, sha256, versions, tag).value], now, size).Some?
    ensures var info := UploadInfo(md5, sha256, versions, tag).value;
            var t := C.Write(s, owner, id, filename, [info], now, size).value;
            && Shows(C.Info(t, id), md5, sha256, versions, tag)
            && (md5 != id ==> (md5 in t.files <==> md5 in s.files))
            && (md5 in s.files ==> t.files[md5] == s.files[md5])
  {
    var info := UploadInfo(md5, sha256, versions, tag).value;
    P.WriteOneInfo(s, owner, id, filename, info, now, size);
    InfoShown(C.BaseAttrs(filename, now, size), md5, sha256, versions, tag);
  }

  /** The upload's attributes as Info reports them. */
  predicate Shows(shown: map<string, string>, md5: string, sha256: string, versions: seq<string>, tag: string) {
    && "md5" in shown && shown["md5"] == md5 && "sha256" in shown && shown["sha256"] == sha256
    && "type" in shown && shown["type"] == "raw" && "tag" in shown && shown["tag"] == tag
    && ("version" in shown <==> versions != [])
  }

  lemma InfoShown(base: map<string, string>, md5: string, sha256: string, versions: seq<string>, tag: string)
    requires md5 != "" && sha256 != "" && "version" !in base
    ensures Shows((base + (UploadInfo(md5, sha256, versions, tag).value - {""}))[C.OwnerKey := C.Public],
                  md5, sha256, versions, tag)
  {
    var info := UploadInfo(md5, sha256, versions, tag).value;
    P.Overlay(base, info, "md5");
    P.Overlay(base, info, "sha256");
    P.Overlay(base, info, "type");
    P.Overlay(base, info, "tag");
    P.Overlay(base, info, "version");
    assert "version" in info <==> versions != [];
  }
}
