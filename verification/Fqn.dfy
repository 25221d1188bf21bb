/**
 Fully qualified names: `strip_ext_len`, `append_path_segments`, `cbm_fqn_compute` and
 `cbm_fqn_folder`. The buffer written is the size the source allocates; every store is in bounds.
 */
module Fqn {
  import opened Prelude

  // ----- what a qualified name is -----

  /** The parts of a path between slashes, empty parts included; there is always at least one. */
  function Split(s: string): (parts: seq<string>)
    ensures |parts| > 0
    decreases |s|
  {
    if '/' !in s then [s]
    else
      var i := IndexOf(s, '/');
      [s[..i]] + Split(s[i + 1..])
  }

  function IndexOf(s: string, c: char): (i: nat)
    requires c in s
    ensures i < |s| && s[i] == c && c !in s[..i]
  {
    if s[0] == c then 0 else 1 + IndexOf(s[1..], c)
  }

  /** Every non-empty part behind a dot. */
  function Dotted(parts: seq<string>): string {
    if parts == [] then "" else (if parts[0] == "" then "" else "." + parts[0]) + Dotted(parts[1..])
  }

  predicate IsPackageFile(part: string) {
    part == "__init__" || part == "index"
  }

  /** The parts that count: a final package file is left out when a name follows. */
  function Counted(parts: seq<string>, hasName: bool): seq<string>
    requires |parts| > 0
  {
    if hasName && IsPackageFile(parts[|parts| - 1]) then parts[..|parts| - 1] else parts
  }

  /** The path without the extension of its last part. */
  function Stripped(path: string): string {
    path[..StripLength(path, |path|)]
  }

  /** Position of the last dot that no slash follows, else the full length. */
  function StripLength(s: string, i: nat): (n: nat)
    requires i <= |s|
    ensures n <= |s|
    decreases i
  {
    if i == 0 then |s|
    else if s[i - 1] == '.' then i - 1
    else if s[i - 1] == '/' then |s|
    else StripLength(s, i - 1)
  }

  function QualifiedName(project: string, path: string, name: string): string {
    project + Dotted(Counted(Split(Stripped(path)), name != "")) + (if name == "" then "" else "." + name)
  }

  function FolderName(project: string, dir: string): string {
    project + if dir == "." then "" else Dotted(Split(dir))
  }

  // ----- names from the parts of a path -----

  /** The parts with a slash between each two. */
  function Slashed(parts: seq<string>): string
    requires |parts| > 0
  {
    if |parts| == 1 then parts[0] else parts[0] + "/" + Slashed(parts[1..])
  }

  /** The parts with a dot between each two. */
  function DotJoin(parts: seq<string>): string
    requires |parts| > 0
  {
    var n := |parts| - 1;
    if n == 0 then parts[0] else DotJoin(parts[..n]) + "." + parts[n]
  }

  function NonEmpty(parts: seq<string>): seq<string> {
    if parts == [] then []
    else var n := |parts| - 1; NonEmpty(parts[..n]) + if parts[n] == "" then [] else [parts[n]]
  }

  predicate NoSlash(parts: seq<string>) {
    forall i | 0 <= i < |parts| :: '/' !in parts[i]
  }

  lemma {:induction false} SplitFirst(part: string, rest: string)
    requires '/' !in part
    ensures Split(part + "/" + rest) == [part] + Split(rest)
  {
    var s, i := part + "/" + rest, |part|;
    assert s[i] == '/' && s[..i] == part && s[i + 1..] == rest;
    SplitAt(s, i);
  }

  /** Splitting undoes joining by slashes. */
  lemma {:induction false} SplitSlashed(parts: seq<string>)
    requires |parts| > 0 && NoSlash(parts)
    ensures Split(Slashed(parts)) == parts
  {
    if |parts| > 1 {
      SplitSlashed(parts[1..]);
      SplitFirst(parts[0], Slashed(parts[1..]));
      assert parts == [parts[0]] + parts[1..];
    } else {
      assert parts == [parts[0]];
    }
  }

  /** Every path is its parts joined by slashes. */
  lemma {:induction false} SlashedSplit(s: string)
    ensures NoSlash(Split(s)) && Slashed(Split(s)) == s
    decreases |s|
  {
    if '/' in s {
      var i := IndexOf(s, '/');
      SlashedSplit(s[i + 1..]);
      assert Split(s)[1..] == Split(s[i + 1..]);
      assert s == s[..i] + "/" + s[i + 1..];
    }
  }

  lemma {:induction false} DottedSnoc(parts: seq<string>, p: string)
    ensures Dotted(parts + [p]) == Dotted(parts) + if p == "" then "" else "." + p
  {
    if parts == [] {
      assert parts + [p] == [p] && [p][1..] == [];
    } else {
      assert (parts + [p])[1..] == parts[1..] + [p];
      DottedSnoc(parts[1..], p);
    }
  }

  lemma JoinSnoc(parts: seq<string>, p: string)
    requires |parts| > 0
    ensures DotJoin(parts + [p]) == DotJoin(parts) + "." + p
  {
    assert (parts + [p])[..|parts|] == parts;
  }

  lemma {:induction false} DottedIsJoin(project: string, parts: seq<string>)
    ensures project + Dotted(parts) == DotJoin([project] + NonEmpty(parts))
  {
    if parts == [] {
      assert [project] + NonEmpty(parts) == [project];
    } else {
      var n := |parts| - 1;
      var front, p := parts[..n], parts[n];
      assert parts == front + [p];
      DottedIsJoin(project, front);
      DottedSnoc(front, p);
      if p == "" {
        assert NonEmpty(parts) == NonEmpty(front);
      } else {
        JoinSnoc([project] + NonEmpty(front), p);
        assert [project] + NonEmpty(parts) == [project] + NonEmpty(front) + [p];
      }
    }
  }

  /** Where a path ends in a part and something behind it, the part's beginning is what came before. */
  lemma {:induction false} SlashedEnds(dirs: seq<string>, base: string, ext: string)
    ensures |Slashed(dirs + [base])| >= |base|
    ensures Slashed(dirs + [base + ext]) == Slashed(dirs + [base]) + ext
    ensures var s := Slashed(dirs + [base]); var k := |s| - |base|; s[k..] == base && (k == 0 || s[k - 1] == '/')
  {
    if dirs == [] {
      assert dirs + [base] == [base] && dirs + [base + ext] == [base + ext];
    } else {
      SlashedEnds(dirs[1..], base, ext);
      assert (dirs + [base])[1..] == dirs[1..] + [base] && (dirs + [base + ext])[1..] == dirs[1..] + [base + ext];
    }
  }

  /** The last dot is found when no slash and no dot follows it ... */
  lemma {:induction false} StripAtDot(s: string, k: nat, i: nat)
    requires k < i <= |s| && s[k] == '.' && '/' !in s[k..] && '.' !in s[k + 1..]
    ensures StripLength(s, i) == k
    decreases i
  {
    if k + 1 < i {
      assert s[i - 1] == s[k..][i - 1 - k] == s[k + 1..][i - 2 - k];
      StripAtDot(s, k, i - 1);
    }
  }

  /** ... and nothing is stripped from a last part without a dot. */
  lemma {:induction false} StripNothing(s: string, k: nat, i: nat)
    requires k <= i <= |s| && '.' !in s[k..] && (k == 0 || s[k - 1] == '/')
    ensures StripLength(s, i) == |s|
    decreases i
  {
    if k < i {
      assert s[i - 1] == s[k..][i - 1 - k];
      if s[i - 1] != '/' {
        StripNothing(s, k, i - 1);
      }
    }
  }

  /** An extension is a dot and what follows it, or nothing behind a part without a dot. */
  predicate IsExtension(base: string, ext: string) {
    if ext == "" then '.' !in base else ext[0] == '.' && '.' !in ext[1..] && '/' !in ext
  }

  lemma StrippedPath(dirs: seq<string>, base: string, ext: string)
    requires IsExtension(base, ext)
    ensures Stripped(Slashed(dirs + [base + ext])) == Slashed(dirs + [base])
  {
    var s, path := Slashed(dirs + [base]), Slashed(dirs + [base + ext]);
    SlashedEnds(dirs, base, ext);
    if ext == "" {
      StripNothing(s, |s| - |base|, |s|);
      assert path == s;
    } else {
      assert path[|s|..] == ext && path[|s| + 1..] == ext[1..];
      StripAtDot(path, |s|, |path|);
    }
  }

  /**
   The name for directories, a file with or without an extension, and a symbol: project, directories,
   file and symbol with dots between, empty parts left out, and the file left out where it is
   `__init__` or `index` and a symbol follows.
   */
  lemma NameLaw(project: string, dirs: seq<string>, base: string, ext: string, name: string)
    requires NoSlash(dirs) && '/' !in base && IsExtension(base, ext)
    ensures var file := if name != "" && (base == "__init__" || base == "index") then [] else [base];
            QualifiedName(project, Slashed(dirs + [base + ext]), name) ==
            DotJoin([project] + NonEmpty(dirs + file + [name]))
  {
    StrippedPath(dirs, base, ext);
    SplitSlashed(dirs + [base]);
    CountedFile(dirs, base, name);
    var file := if name != "" && (base == "__init__" || base == "index") then [] else [base];
    DottedSnoc(dirs + file, name);
    DottedIsJoin(project, dirs + file + [name]);
    Joined(project, Dotted(dirs + file), if name == "" then "" else "." + name);
  }

  lemma CountedFile(dirs: seq<string>, base: string, name: string)
    ensures Counted(dirs + [base], name != "") ==
            dirs + if name != "" && (base == "__init__" || base == "index") then [] else [base]
  {
    assert (dirs + [base])[..|dirs|] == dirs;
  }

  lemma FolderLaw(project: string, dirs: seq<string>)
    requires |dirs| > 0 && NoSlash(dirs)
    ensures FolderName(project, Slashed(dirs)) == if dirs == ["."] then project else DotJoin([project] + NonEmpty(dirs))
  {
    SplitSlashed(dirs);
    DottedIsJoin(project, dirs);
    if Slashed(dirs) == "." {
      assert Split(".") == ["."];
    }
  }

  // ----- lengths -----

  /** Joining the parts takes no more room than the path and one separator. */
  lemma {:induction false} SplitFits(s: string)
    ensures |Dotted(Split(s))| <= |s| + 1
    decreases |s|
  {
    if '/' in s {
      var i := IndexOf(s, '/');
      SplitFits(s[i + 1..]);
      assert Split(s)[1..] == Split(s[i + 1..]);
    } else {
      assert Split(s)[1..] == [];
    }
  }

  lemma {:induction false} DottedPrefix(parts: seq<string>, n: nat)
    requires n <= |parts|
    ensures |Dotted(parts[..n])| <= |Dotted(parts)|
    decreases |parts|
  {
    if n > 0 {
      assert parts[..n][1..] == parts[1..][..n - 1];
      DottedPrefix(parts[1..], n - 1);
    }
  }

  lemma CountedFits(path: string, hasName: bool)
    ensures |Dotted(Counted(Split(path), hasName))| <= |path| + 1
  {
    SplitFits(path);
    DottedPrefix(Split(path), |Split(path)| - 1);
  }

  // ----- the code -----

  /** `memchr` for a slash from `start` on; the length if there is none. */
  method PartEnd(s: string, start: nat) returns (i: nat)
    requires start <= |s|
    ensures start <= i <= |s| && '/' !in s[start..i] && (i < |s| ==> s[i] == '/')
  {
    i := start;
    while i < |s| && s[i] != '/'
      invariant start <= i <= |s| && '/' !in s[start..i]
    {
      i := i + 1;
    }
  }

  /** `strip_ext_len` */
  method StripExtLen(s: string) returns (n: nat)
    ensures n == StripLength(s, |s|)
    ensures n <= |s| && (n < |s| ==> s[n] == '.' && '/' !in s[n..] && '.' !in s[n + 1..])
    ensures n == |s| ==> forall k | 0 <= k < |s| && s[k] == '.' :: '/' in s[k..]
  {
    var i := |s|;
    while i > 0
      invariant 0 <= i <= |s| && StripLength(s, i) == StripLength(s, |s|)
      invariant '/' !in s[i..] && '.' !in s[i..] && forall j | i <= j < |s| :: s[j] != '.'
    {
      if s[i - 1] == '.' {
        return i - 1;
      }
      if s[i - 1] == '/' {
        forall k | 0 <= k < |s| && s[k] == '.' ensures '/' in s[k..] {
          assert s[k..][i - 1 - k] == '/';
        }
        return |s|;
      }
      i := i - 1;
    }
    return |s|;
  }

  /** What is still to be written from position `start` of a path. */
  ghost function ToCome(path: string, start: nat, hasName: bool): string {
    if start >= |path| then "" else Dotted(Counted(Split(path[start..]), hasName))
  }

  /** What one part contributes: a dot and the part, unless it is empty or a package file left out. */
  function Written(part: string, last: bool, hasName: bool): string {
    if part == "" || (last && hasName && IsPackageFile(part)) then "" else "." + part
  }

  lemma {:induction false} FirstSlash(s: string, i: nat)
    requires i < |s| && s[i] == '/' && '/' !in s[..i]
    ensures IndexOf(s, '/') == i
  {
    if i > 0 {
      assert s[..i][0] == s[0] && s[1..][..i - 1] == s[..i][1..];
      FirstSlash(s[1..], i - 1);
    }
  }

  lemma ConsPart(part: string, rest: seq<string>, hasName: bool)
    requires |rest| > 0
    ensures Dotted(Counted([part] + rest, hasName)) == Written(part, false, hasName) + Dotted(Counted(rest, hasName))
  {
    var all := [part] + rest;
    assert Counted(all, hasName) == [part] + Counted(rest, hasName) by {
      assert all[|all| - 1] == rest[|rest| - 1];
      assert all[..|all| - 1] == [part] + rest[..|rest| - 1];
    }
    assert ([part] + Counted(rest, hasName))[1..] == Counted(rest, hasName);
  }

  lemma LastPart(part: string, hasName: bool)
    ensures Dotted(Counted([part], hasName)) == Written(part, true, hasName)
  {
    assert [part][..0] == [] && [part][1..] == [];
    if Counted([part], hasName) == [part] {
      assert Dotted([part]) == (if part == "" then "" else "." + part) + "";
    }
  }

  /** One part of the path, and where the next one starts. */
  lemma ToComeStep(path: string, start: nat, end: nat, hasName: bool)
    requires start < |path| && start <= end <= |path| && '/' !in path[start..end] && (end < |path| ==> path[end] == '/')
    ensures ToCome(path, start, hasName) == Written(path[start..end], end == |path|, hasName) + ToCome(path, end + 1, hasName)
  {
    var s, part := path[start..], path[start..end];
    if end == |path| {
      assert s == part;
      LastPart(part, hasName);
    } else {
      var i := end - start;
      assert s[i] == '/' && s[..i] == part && s[i + 1..] == path[end + 1..];
      SplitAt(s, i);
      ConsPart(part, Split(path[end + 1..]), hasName);
      if end + 1 == |path| {
        LastPart("", hasName);
      }
    }
  }

  lemma SplitAt(s: string, i: nat)
    requires i < |s| && s[i] == '/' && '/' !in s[..i]
    ensures Split(s) == [s[..i]] + Split(s[i + 1..])
  {
    FirstSlash(s, i);
  }

  /** Store a text at the write pointer. */
  method Write(buf: array<char>, out: nat, text: string) returns (out': nat)
    requires out + |text| <= buf.Length
    modifies buf
    ensures out' == out + |text| && buf[..out'] == old(buf[..out]) + text
  {
    for i := 0 to |text|
      invariant buf[..out + i] == old(buf[..out]) + text[..i]
    {
      buf[out + i] := text[i];
      assert text[..i + 1] == text[..i] + [text[i]];
    }
    assert text[..|text|] == text;
    out' := out + |text|;
  }

  /** One part behind a dot, or nothing. */
  method AppendPart(buf: array<char>, out: nat, part: string, last: bool, hasName: bool) returns (out': nat)
    requires out + |Written(part, last, hasName)| <= buf.Length
    modifies buf
    ensures out' == out + |Written(part, last, hasName)|
    ensures buf[..out'] == old(buf[..out]) + Written(part, last, hasName)
  {
    out' := out;
    if |part| > 0 {
      if !(last && hasName && IsPackageFile(part)) {
        out' := Write(buf, out', "." + part);
      }
    }
  }

  /** One round of the segment loop. */
  method AppendNext(buf: array<char>, out: nat, path: string, start: nat, hasName: bool) returns (out': nat, start': nat)
    requires start < |path| && out + |ToCome(path, start, hasName)| <= buf.Length
    modifies buf
    ensures start < start'
    ensures out' + |ToCome(path, start', hasName)| == out + |ToCome(path, start, hasName)|
    ensures buf[..out'] + ToCome(path, start', hasName) == old(buf[..out]) + ToCome(path, start, hasName)
  {
    var end := PartEnd(path, start);
    ToComeStep(path, start, end, hasName);
    start' := end + 1;
    Joined(buf[..out], Written(path[start..end], end == |path|, hasName), ToCome(path, start', hasName));
    out' := AppendPart(buf, out, path[start..end], end == |path|, hasName);
  }

  /** `append_path_segments`, also the loop of `cbm_fqn_folder` when no name follows. */
  method AppendSegments(buf: array<char>, out: nat, path: string, hasName: bool) returns (out': nat)
    requires out + |ToCome(path, 0, hasName)| <= buf.Length
    modifies buf
    ensures out' == out + |ToCome(path, 0, hasName)|
    ensures buf[..out'] == old(buf[..out]) + ToCome(path, 0, hasName)
  {
    out' := out;
    var start := 0;
    while start < |path|
      invariant out' + |ToCome(path, start, hasName)| == out + |ToCome(path, 0, hasName)|
      invariant out' <= buf.Length && buf[..out'] + ToCome(path, start, hasName) == old(buf[..out]) + ToCome(path, 0, hasName)
      decreases |path| - start
    {
      out', start := AppendNext(buf, out', path, start, hasName);
    }
    Joined(buf[..out'], "", "");
  }

  lemma Joined(a: string, b: string, c: string)
    ensures a + (b + c) == a + b + c
    ensures b == "" ==> a + b == a
  {
  }

  lemma WholePath(path: string, hasName: bool)
    ensures ToCome(path, 0, hasName) == Dotted(Counted(Split(path), hasName))
  {
    if path == "" {
      assert Split("") == [""];
    } else {
      assert path[0..] == path;
    }
  }

  function OrEmpty(s: Option<string>): string {
    if s.None? then "" else s.value
  }

  /** The name, and room to spare for its terminator in the buffer allocated. */
  method BuildName(proj: string, path: string, tail: string) returns (fqn: string)
    ensures fqn == QualifiedName(proj, path, tail)
  {
    var maxLen := |proj| + 1 + |path| + 1 + |tail| + 1;
    var buf := new char[maxLen](_ => '.');
    var out := Write(buf, 0, proj);
    assert buf[..out] == proj;
    var plen := StripExtLen(path);
    ghost var segments := Dotted(Counted(Split(path[..plen]), |tail| > 0));
    WholePath(path[..plen], |tail| > 0);
    CountedFits(path[..plen], |tail| > 0);
    out := AppendSegments(buf, out, path[..plen], |tail| > 0);
    assert buf[..out] == proj + segments;
    if |tail| > 0 {
      out := Write(buf, out, "." + tail);
    } else {
      Joined(proj + segments, "", "");
    }
    fqn := buf[..out];
    var end := Write(buf, out, ['\0']);
  }

  /** `cbm_fqn_compute`; null exactly when the arena refuses the buffer. */
  method FqnCompute(project: Option<string>, relPath: Option<string>, name: Option<string>, allocOk: bool)
    returns (fqn: Option<string>)
    ensures fqn == if allocOk then Some(QualifiedName(OrEmpty(project), OrEmpty(relPath), OrEmpty(name))) else None
  {
    if !allocOk {
      return None;
    }
    var text := BuildName(OrEmpty(project), OrEmpty(relPath), OrEmpty(name));
    return Some(text);
  }

  /** `cbm_fqn_folder`; null exactly when the arena refuses the buffer. */
  method FqnFolder(project: string, relDir: string, allocOk: bool) returns (fqn: Option<string>)
    ensures fqn == if allocOk then Some(FolderName(project, relDir)) else None
  {
    if !allocOk {
      return None;
    }
    var maxLen := |project| + 1 + |relDir| + 1;
    var buf := new char[maxLen](_ => '.');
    var out := Write(buf, 0, project);
    WholePath(relDir, false);
    CountedFits(relDir, false);
    if |relDir| > 0 && !(|relDir| == 1 && relDir[0] == '.') {
      out := AppendSegments(buf, out, relDir, false);
    }
    var text := buf[..out];
    assert text == FolderName(project, relDir);
    var end := Write(buf, out, ['\0']);
    return Some(text);
  }
}
