/**
 The remote names of pasted files (image_transfer.rs): generated, validated, and
 typed into a shell on the other side.
 */
module RemotePaths {
  import opened Common
  import opened Text
  import opened ShellWords

  predicate Hex(c: char) {
    '0' <= c <= '9' || 'a' <= c <= 'f' || 'A' <= c <= 'F'
  }

  /** The hyphenated form of a UUID, in which one is printed. */
  predicate UuidText(s: string) {
    |s| == 36 && forall i :: 0 <= i < 36 ==> if i == 8 || i == 13 || i == 18 || i == 23 then s[i] == '-' else Hex(s[i])
  }

  /** What `Uuid::parse_str` takes: bare hexadecimal digits, the hyphenated form, and that in braces or as a URN. */
  predicate ParsesAsUuid(s: string) {
    (|s| == 32 && forall i :: 0 <= i < 32 ==> Hex(s[i]))
    || UuidText(s)
    || (|s| == 38 && s[0] == '{' && s[37] == '}' && UuidText(s[1..37]))
    || (|s| == 45 && "urn:uuid:" <= s && UuidText(s[9..]))
  }

  const DIRECTORY_PREFIX: string := "/tmp/hh-paste-"

  function Lower(c: char): char {
    if 'A' <= c <= 'Z' then (c as int + 32) as char else c
  }

  function Lowered(s: string): (r: string)
    ensures |r| == |s|
  {
    seq(|s|, i requires 0 <= i < |s| => Lower(s[i]))
  }

  function FileName(path: string): string {
    match FindLast(path, '/')
    case None => path
    case Some(i) => path[i + 1..]
  }

  /** What follows the last dot of the file name, unless that dot comes first. */
  function Extension(path: string): Option<string> {
    var name := FileName(path);
    match FindLast(name, '.')
    case None => None
    case Some(i) => if i == 0 then None else Some(name[i + 1..])
  }

  predicate SafeExtension(e: string) {
    e != "" && |e| <= 10 && forall i :: 0 <= i < |e| ==> AsciiAlphanumeric(e[i])
  }

  function RemoteExtension(localPath: string): string {
    match Extension(localPath)
    case None => "bin"
    case Some(e) => if SafeExtension(Lowered(e)) then Lowered(e) else "bin"
  }

  function RemoteDirectory(id: string): string {
    DIRECTORY_PREFIX + id
  }

  function RemotePath(localPath: string, id: string): string {
    RemoteDirectory(id) + "/file." + RemoteExtension(localPath)
  }

  predicate DirectoryAccepted(path: string) {
    DIRECTORY_PREFIX <= path && ParsesAsUuid(path[|DIRECTORY_PREFIX|..])
  }

  predicate FileNameAccepted(name: string) {
    name != "" && |name| <= 64
    && forall i :: 0 <= i < |name| ==> AsciiAlphanumeric(name[i]) || name[i] == '.' || name[i] == '-'
  }

  function DirectoryOf(path: string): Option<string> {
    match FindLast(path, '/')
    case None => None
    case Some(i) => Some(path[..i])
  }

  /** `validate_remote_paste_path`. */
  predicate PathAccepted(path: string) {
    match FindLast(path, '/')
    case None => false
    case Some(i) => DirectoryAccepted(path[..i]) && FileNameAccepted(path[i + 1..])
  }

  lemma LastSlash(directory: string, name: string)
    requires '/' !in name
    ensures var p := directory + "/" + name;
      FindLast(p, '/') == Some(|directory|) && p[..|directory|] == directory && p[|directory| + 1..] == name
  {
    hide FindLast;
    var p := directory + "/" + name;
    assert p[|directory|] == '/';
    assert p[..|directory|] == directory && p[|directory| + 1..] == name;
    FindLastIs(p, '/', |directory|);
  }

  /** Whatever file is pasted, its generated remote path passes the validators,
      lies in its own directory, and is one literal word to the remote shell. */
  lemma GeneratedPathAccepted(localPath: string, id: string)
    requires UuidText(id)
    ensures var p := RemotePath(localPath, id);
      && PathAccepted(p) && DirectoryOf(p) == Some(RemoteDirectory(id))
      && Words(p) == Some([p])
  {
    hide FindLast; hide Words; hide RemoteExtension;
    var name := "file." + RemoteExtension(localPath);
    ExtensionSafe(localPath);
    assert RemotePath(localPath, id) == RemoteDirectory(id) + "/" + name;
    LastSlash(RemoteDirectory(id), name);
    assert RemoteDirectory(id)[|DIRECTORY_PREFIX|..] == id;
    AcceptedPathIsOneWord(RemotePath(localPath, id));
  }

  lemma ExtensionSafe(localPath: string)
    ensures SafeExtension(RemoteExtension(localPath))
    ensures var name := "file." + RemoteExtension(localPath); FileNameAccepted(name) && '/' !in name
  {
    var e := RemoteExtension(localPath);
    var name := "file." + e;
    assert forall i :: 5 <= i < |name| ==> name[i] == e[i - 5];
  }

  /** A short word of ASCII letters and digits. */
  ghost predicate ShortAlphanumeric(e: string) {
    1 <= |e| <= 10 && forall i :: 0 <= i < |e| ==> AsciiAlphanumeric(e[i])
  }

  /** The letter in lower case, anything else as it is. */
  ghost predicate InLowerCase(c: char, lower: char) {
    if 'A' <= c <= 'Z' then 'a' <= lower <= 'z' && lower as int - 'a' as int == c as int - 'A' as int else lower == c
  }

  lemma LoweredShort(e: string)
    ensures ShortAlphanumeric(e) <==> SafeExtension(Lowered(e))
    ensures forall i :: 0 <= i < |e| ==> InLowerCase(e[i], Lowered(e)[i])
  {
    assert forall i :: 0 <= i < |e| ==> (AsciiAlphanumeric(e[i]) <==> AsciiAlphanumeric(Lowered(e)[i]));
  }

  /** The remote file keeps the extension of the local one, in lower case, if it is
      a short word of letters and digits. */
  lemma KeepsExtension(directory: string, stem: string, extension: string)
    requires '/' !in stem && '/' !in extension && '.' !in extension && stem != ""
    ensures var kept := RemoteExtension(directory + "/" + (stem + "." + extension));
      if ShortAlphanumeric(extension) then
        |kept| == |extension| && forall i :: 0 <= i < |extension| ==> InLowerCase(extension[i], kept[i])
      else kept == "bin"
  {
    hide FindLast, SafeExtension, Lowered, ShortAlphanumeric;
    var name := stem + "." + extension;
    LastSlash(directory, name);
    assert name[|stem|] == '.' && name[|stem| + 1..] == extension;
    assert forall j :: |stem| < j < |name| ==> name[j] == extension[j - |stem| - 1];
    FindLastIs(name, '.', |stem|);
    LoweredShort(extension);
  }

  /** Without one, or with nothing in front of its only dot, it is called `bin`. */
  lemma NoExtension(directory: string, name: string)
    requires '/' !in name && forall i :: 0 < i < |name| ==> name[i] != '.'
    ensures RemoteExtension(directory + "/" + name) == "bin"
  {
    hide FindLast, SafeExtension, Lowered;
    LastSlash(directory, name);
  }

  /** A character that stands for itself in an unquoted word. */
  predicate Literal(c: char) {
    !Blank(c) && !Special(c) && c != '\\' && c != '\''
  }

  predicate AllLiteral(s: string) {
    forall i :: 0 <= i < |s| ==> Literal(s[i])
  }

  lemma {:induction false} LiteralWord(s: string, word: string)
    requires AllLiteral(s)
    ensures Split(s, Plain, Some(word)) == Some([word + s])
    decreases |s|
  {
    if s == "" {
      assert word + s == word;
    } else {
      assert Literal(s[0]);
      LiteralWord(s[1..], word + [s[0]]);
      assert word + [s[0]] + s[1..] == word + s;
    }
  }

  lemma LiteralIsOneWord(s: string)
    requires s != "" && AllLiteral(s)
    ensures Words(s) == Some([s])
  {
    assert Literal(s[0]) && "" + [s[0]] == [s[0]];
    LiteralWord(s[1..], [s[0]]);
    assert [s[0]] + s[1..] == s;
  }

  lemma UuidIsLiteral(s: string)
    requires ParsesAsUuid(s)
    ensures AllLiteral(s)
  {
    if |s| == 38 {
      assert forall i :: 1 <= i < 37 ==> s[i] == s[1..37][i - 1];
    } else if |s| == 45 {
      assert AllLiteral("urn:uuid:");
      assert forall i :: 0 <= i < 9 ==> s[i] == "urn:uuid:"[i];
      assert forall i :: 9 <= i < 45 ==> s[i] == s[9..][i - 9];
    }
  }

  lemma PrefixIsLiteral()
    ensures AllLiteral(DIRECTORY_PREFIX)
  {
  }

  /** Validation is enough for the remote shell: an accepted path contains
      nothing that shell would interpret, however its UUID is written. */
  lemma AcceptedPathIsOneWord(path: string)
    requires PathAccepted(path)
    ensures Words(path) == Some([path])
  {
    hide Literal, ParsesAsUuid, Words;
    var i := FindLast(path, '/').value;
    var n := |DIRECTORY_PREFIX|;
    var id, name := path[..i][n..], path[i + 1..];
    PrefixIsLiteral();
    UuidIsLiteral(id);
    NameIsLiteral(name);
    assert path == (DIRECTORY_PREFIX + id) + ("/" + name);
    LiteralIsOneWord(path);
  }

  lemma NameIsLiteral(name: string)
    requires FileNameAccepted(name)
    ensures AllLiteral("/" + name)
  {
    var s := "/" + name;
    assert forall i :: 1 <= i < |s| ==> s[i] == name[i - 1];
  }

  /** A file of ours: in a directory named by a UUID, under a short name without
      anything a shell could take for more than a letter. */
  ghost predicate OursAs(path: string, id: string, name: string) {
    && path == "/tmp/hh-paste-" + id + "/" + name && ParsesAsUuid(id)
    && 1 <= |name| <= 64
    && forall i :: 0 <= i < |name| ==> AsciiAlphanumeric(name[i]) || name[i] == '.' || name[i] == '-'
  }

  lemma OursAccepted(path: string, id: string, name: string)
    requires OursAs(path, id, name)
    ensures PathAccepted(path)
  {
    hide FindLast, ParsesAsUuid;
    LastSlash(DIRECTORY_PREFIX + id, name);
    assert (DIRECTORY_PREFIX + id)[|DIRECTORY_PREFIX|..] == id;
  }

  /** Exactly the files of ours are accepted. */
  lemma AcceptedIff(path: string)
    ensures PathAccepted(path) <==> exists id: string, name: string :: OursAs(path, id, name)
  {
    hide FindLast, ParsesAsUuid;
    if PathAccepted(path) {
      var i := FindLast(path, '/').value;
      var id, name := path[..i][|DIRECTORY_PREFIX|..], path[i + 1..];
      assert path == DIRECTORY_PREFIX + id + "/" + name;
      assert OursAs(path, id, name);
    }
    forall id: string, name: string | OursAs(path, id, name)
      ensures PathAccepted(path)
    {
      OursAccepted(path, id, name);
    }
  }

  // ------------------------------------------------------------------ clean-up

  /** The directories one clean-up removes: those of the given paths, once each,
      in the order they first appear. `None` is a path that is not ours. */
  function Directories(paths: seq<string>): Option<seq<string>> {
    if paths == [] then Some([])
    else
      var last := paths[|paths| - 1];
      match Directories(paths[..|paths| - 1])
      case None => None
      case Some(ds) =>
        if !PathAccepted(last) then None
        else
          var d := DirectoryOf(last).value;
          Some(if d in ds then ds else ds + [d])
  }

  lemma AcceptedHasDirectory(path: string)
    requires PathAccepted(path)
    ensures DirectoryOf(path).Some?
  {
  }

  lemma {:induction false} DirectoriesIff(paths: seq<string>)
    ensures Directories(paths).Some? <==> forall k :: 0 <= k < |paths| ==> PathAccepted(paths[k])
    ensures Directories(paths).Some? ==>
      var ds := Directories(paths).value; forall j, k :: 0 <= j < k < |ds| ==> ds[j] != ds[k]
  {
    hide PathAccepted, DirectoryOf;
    if paths != [] {
      var n := |paths| - 1;
      DirectoriesIff(paths[..n]);
      assert forall k :: 0 <= k < n ==> paths[..n][k] == paths[k];
      if PathAccepted(paths[n]) {
        AcceptedHasDirectory(paths[n]);
      }
    }
  }

  /** One of the paths lies in this directory. */
  predicate Holds(paths: seq<string>, directory: string) {
    exists k :: 0 <= k < |paths| && DirectoryOf(paths[k]) == Some(directory)
  }

  lemma HoldsMore(paths: seq<string>, last: string, directory: string)
    ensures Holds(paths + [last], directory) <==> Holds(paths, directory) || DirectoryOf(last) == Some(directory)
  {
    hide DirectoryOf;
    var all := paths + [last];
    assert all[|paths|] == last && forall k :: 0 <= k < |paths| ==> all[k] == paths[k];
    if k :| 0 <= k < |paths| && DirectoryOf(paths[k]) == Some(directory) {
      assert DirectoryOf(all[k]) == Some(directory);
    }
  }

  lemma {:induction false} DirectoriesAre(paths: seq<string>, directory: string)
    requires Directories(paths).Some?
    ensures directory in Directories(paths).value <==> Holds(paths, directory)
  {
    hide PathAccepted, DirectoryOf, Holds;
    if paths == [] {
      HoldsNone(directory);
    } else {
      var n := |paths| - 1;
      DirectoriesAre(paths[..n], directory);
      AcceptedHasDirectory(paths[n]);
      HoldsMore(paths[..n], paths[n], directory);
      assert paths == paths[..n] + [paths[n]];
    }
  }

  lemma HoldsNone(directory: string)
    ensures !Holds([], directory)
  {
  }

  /** The loop of `ssh_cleanup_command_with`; an empty list is refused. */
  method CleanupDirectories(paths: seq<string>) returns (r: Option<seq<string>>)
    ensures r == if paths == [] then None else Directories(paths)
    // One path that is not ours is enough to refuse; otherwise each directory once.
    ensures r.Some? <==> paths != [] && forall k :: 0 <= k < |paths| ==> PathAccepted(paths[k])
    ensures r.Some? ==> forall d :: d in r.value <==> Holds(paths, d)
    ensures r.Some? ==> forall j, k :: 0 <= j < k < |r.value| ==> r.value[j] != r.value[k]
  {
    hide PathAccepted, DirectoryOf, Holds;
    DirectoriesIff(paths);
    if Directories(paths).Some? {
      forall d
        ensures d in Directories(paths).value <==> Holds(paths, d)
      {
        DirectoriesAre(paths, d);
      }
    }
    if paths == [] {
      return None;
    }
    var directories: seq<string> := [];
    for i := 0 to |paths|
      invariant Directories(paths[..i]) == Some(directories)
      invariant forall k :: 0 <= k < i ==> PathAccepted(paths[k])
    {
      assert paths[..i + 1][..i] == paths[..i] && paths[..i + 1][i] == paths[i];
      if !PathAccepted(paths[i]) {
        RefusedPrefix(paths, i + 1);
        return None;
      }
      AcceptedHasDirectory(paths[i]);
      var directory := DirectoryOf(paths[i]).value;
      if directory !in directories {
        directories := directories + [directory];
      }
    }
    assert paths[..|paths|] == paths;
    return Some(directories);
  }

  lemma {:induction false} RefusedPrefix(paths: seq<string>, n: nat)
    requires n <= |paths| && Directories(paths[..n]).None?
    ensures Directories(paths).None?
    decreases |paths| - n
  {
    if n == |paths| {
      assert paths[..n] == paths;
    } else {
      assert paths[..n + 1][..n] == paths[..n];
      RefusedPrefix(paths, n + 1);
    }
  }

  /** The remote paths of a list of uploads, in order. */
  function Generated(localPaths: seq<string>, ids: seq<string>): (r: seq<string>)
    requires |localPaths| == |ids|
    ensures |r| == |ids|
  {
    if ids == [] then []
    else
      var n := |ids| - 1;
      Generated(localPaths[..n], ids[..n]) + [RemotePath(localPaths[n], ids[n])]
  }

  function OwnDirectories(ids: seq<string>): seq<string> {
    if ids == [] then [] else OwnDirectories(ids[..|ids| - 1]) + [RemoteDirectory(ids[|ids| - 1])]
  }

  lemma {:induction false} NotAmongOwn(ids: seq<string>, id: string)
    requires id !in ids
    ensures RemoteDirectory(id) !in OwnDirectories(ids)
    decreases |ids|
  {
    if ids != [] {
      var n := |ids| - 1;
      NotAmongOwn(ids[..n], id);
      assert RemoteDirectory(id)[|DIRECTORY_PREFIX|..] == id;
      assert RemoteDirectory(ids[n])[|DIRECTORY_PREFIX|..] == ids[n];
    }
  }

  /** Cleaning up after generated uploads names exactly their own directories. */
  lemma {:induction false} GeneratedDirectories(localPaths: seq<string>, ids: seq<string>)
    requires |localPaths| == |ids| && forall k :: 0 <= k < |ids| ==> UuidText(ids[k])
    requires forall j, k :: 0 <= j < k < |ids| ==> ids[j] != ids[k]
    ensures Directories(Generated(localPaths, ids)) == Some(OwnDirectories(ids))
    decreases |ids|
  {
    hide PathAccepted; hide DirectoryOf; hide RemotePath; hide UuidText; hide Words; hide RemoteDirectory;
    if ids != [] {
      var n := |ids| - 1;
      GeneratedDirectories(localPaths[..n], ids[..n]);
      GeneratedPathAccepted(localPaths[n], ids[n]);
      NotAmongOwn(ids[..n], ids[n]);
      var all := Generated(localPaths, ids);
      assert all[..n] == Generated(localPaths[..n], ids[..n]);
    }
  }
}
