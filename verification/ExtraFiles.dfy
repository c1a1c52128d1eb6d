/** The walk that exposes extra configuration files next to the compose file: one
    level of subdirectories, filtered, sorted by relative name. */
module ExtraFiles {
  import opened Prelude
  import opened Text

  /** What the file system answers about a path.  A file has a readable content or
      not, and its canonical path lies inside the compose directory, or outside, or
      cannot be found; a directory can be listed or not. */
  datatype Node =
    | File(content: Option<string>, inside: Option<bool>)
    | Dir(listing: Option<seq<Entry>>)
    | Special

  datatype Entry = Entry(name: string, node: Node)

  datatype ConfigFile = ConfigFile(name: string, content: string)

  const EXTENSIONLESS_ALLOWLIST := ["Caddyfile", "Dockerfile", "Makefile"]

  predicate EndsWith(s: string, suffix: string) {
    |suffix| <= |s| && s[|s| - |suffix|..] == suffix
  }

  predicate Matches(name: string, extensions: seq<string>) {
    if '.' in name then exists ext | ext in extensions :: EndsWith(name, ext)
    else name in EXTENSIONLESS_ALLOWLIST
  }

  predicate IsComposeFile(name: string) {
    name == "docker-compose.yaml" || name == "docker-compose.yml"
  }

  predicate Exposed(e: Entry, extensions: seq<string>) {
    && e.node.File? && e.node.content.Some? && e.node.inside != Some(false)
    && !IsComposeFile(e.name) && Matches(e.name, extensions)
  }

  /** The name relative to the compose directory. */
  function RelName(dir: Option<string>, name: string): string {
    match dir
    case None => name
    case Some(d) => d + "/" + name
  }

  // ----- the walk -----

  /** What one entry contributes; `dir` is the subdirectory being listed, if any. */
  function Contribution(dir: Option<string>, e: Entry, extensions: seq<string>): seq<ConfigFile>
    decreases if dir == None then 1 else 0, 0
  {
    if dir == None && e.node.Dir? then
      if e.node.listing.Some? then Walk(Some(e.name), e.node.listing.value, extensions) else []
    else if Exposed(e, extensions) then [ConfigFile(RelName(dir, e.name), e.node.content.value)]
    else []
  }

  function Walk(dir: Option<string>, entries: seq<Entry>, extensions: seq<string>): seq<ConfigFile>
    decreases if dir == None then 1 else 0, |entries|
  {
    if entries == [] then []
    else
      var n := |entries| - 1;
      Walk(dir, entries[..n], extensions) + Contribution(dir, entries[n], extensions)
  }

  method Collect(dir: Option<string>, listing: Option<seq<Entry>>, extensions: seq<string>, files: seq<ConfigFile>)
      returns (more: seq<ConfigFile>)
    ensures more == files + if listing.Some? then Walk(dir, listing.value, extensions) else []
    decreases if dir == None then 1 else 0
  {
    more := files;
    if listing.None? {
      return;
    }
    var entries := listing.value;
    var depth := if dir == None then 0 else 1;
    for i := 0 to |entries|
      invariant more == files + Walk(dir, entries[..i], extensions)
    {
      assert entries[..i + 1][..i] == entries[..i];
      var Entry(name, node) := entries[i];
      if node.Dir? && depth == 0 {
        more := Collect(Some(name), node.listing, extensions, more);
        continue;
      }
      if !node.File? {
        continue;
      }
      if node.inside.Some? && !node.inside.value {
        continue;
      }
      if IsComposeFile(name) || !Matches(name, extensions) {
        continue;
      }
      if node.content.Some? {
        more := more + [ConfigFile(RelName(dir, name), node.content.value)];
      }
    }
    assert entries[..|entries|] == entries;
  }

  // ----- the order of names -----

  /** `str` comparison: by code point, which for UTF-8 is the byte order. */
  predicate Less(a: string, b: string) {
    if b == "" then false
    else if a == "" then true
    else a[0] < b[0] || (a[0] == b[0] && Less(a[1..], b[1..]))
  }

  lemma {:induction false} LessIrreflexive(a: string)
    ensures !Less(a, a)
  {
    if a != "" {
      LessIrreflexive(a[1..]);
    }
  }

  lemma {:induction false} LessTransitive(a: string, b: string, c: string)
    requires Less(a, b) && Less(b, c)
    ensures Less(a, c)
  {
    if a != "" && a[0] == b[0] && b[0] == c[0] {
      LessTransitive(a[1..], b[1..], c[1..]);
    }
  }

  lemma {:induction false} LessTotal(a: string, b: string)
    ensures Less(a, b) || Less(b, a) || a == b
  {
    if a != "" && b != "" && a[0] == b[0] {
      LessTotal(a[1..], b[1..]);
      assert a[1..] == b[1..] ==> a == [a[0]] + a[1..] == b;
    }
  }

  // ----- sorting -----

  function Insert(f: ConfigFile, sorted: seq<ConfigFile>): seq<ConfigFile> {
    if sorted == [] || Less(f.name, sorted[0].name) then [f] + sorted
    else [sorted[0]] + Insert(f, sorted[1..])
  }

  /** The stable sort by name. */
  function Sort(files: seq<ConfigFile>): seq<ConfigFile> {
    if files == [] then []
    else Insert(files[|files| - 1], Sort(files[..|files| - 1]))
  }

  ghost predicate Ascending(files: seq<ConfigFile>) {
    forall i, j | 0 <= i < j < |files| :: Less(files[i].name, files[j].name)
  }

  ghost predicate DistinctNames(files: seq<ConfigFile>) {
    forall i, j | 0 <= i < j < |files| :: files[i].name != files[j].name
  }

  lemma {:induction false} InsertMembers(f: ConfigFile, sorted: seq<ConfigFile>)
    ensures forall g :: g in Insert(f, sorted) <==> g == f || g in sorted
  {
    if sorted != [] && !Less(f.name, sorted[0].name) {
      InsertMembers(f, sorted[1..]);
      forall g
        ensures g in Insert(f, sorted) <==> g == f || g in sorted
      {
        assert g in sorted <==> g == sorted[0] || g in sorted[1..];
      }
    }
  }

  lemma {:induction false} InsertAscending(f: ConfigFile, sorted: seq<ConfigFile>)
    requires Ascending(sorted) && forall g | g in sorted :: g.name != f.name
    ensures Ascending(Insert(f, sorted))
  {
    if sorted != [] {
      var head, tail := sorted[0], sorted[1..];
      if Less(f.name, head.name) {
        forall j | 0 <= j < |sorted|
          ensures Less(f.name, sorted[j].name)
        {
          if j > 0 {
            LessTransitive(f.name, head.name, sorted[j].name);
          }
        }
      } else {
        LessTotal(f.name, head.name);
        InsertAscending(f, tail);
        InsertMembers(f, tail);
        var rest := Insert(f, tail);
        forall j | 0 <= j < |rest|
          ensures Less(head.name, rest[j].name)
        {
          assert rest[j] == f || rest[j] in tail;
        }
      }
    }
  }

  lemma {:induction false} SortSpec(files: seq<ConfigFile>)
    requires DistinctNames(files)
    ensures Ascending(Sort(files))
    ensures forall g :: g in Sort(files) <==> g in files
  {
    if files != [] {
      var n := |files| - 1;
      SortSpec(files[..n]);
      InsertMembers(files[n], Sort(files[..n]));
      InsertAscending(files[n], Sort(files[..n]));
      forall g
        ensures g in Sort(files) <==> g in files
      {
        assert g in files <==> g in files[..n] || g == files[n];
      }
    }
  }

  /** A strictly ascending list is determined by its members. */
  lemma {:induction false} AscendingUnique(a: seq<ConfigFile>, b: seq<ConfigFile>)
    requires Ascending(a) && Ascending(b)
    requires forall g :: g in a <==> g in b
    ensures a == b
  {
    if a != [] || b != [] {
      var some := if a != [] then a[0] else b[0];
      assert some in a && some in b;
      assert a[0] in b && b != [] && b[0] in a;
      if a[0] != b[0] {
        LessTransitive(a[0].name, b[0].name, a[0].name);
        LessIrreflexive(a[0].name);
        assert false;
      }
      LessIrreflexive(a[0].name);
      forall g
        ensures g in a[1..] <==> g in b[1..]
      {
        assert g in a <==> g == a[0] || g in a[1..];
        assert g in b <==> g == b[0] || g in b[1..];
        if g in a[1..] || g in b[1..] {
          assert Less(a[0].name, g.name);
        }
      }
      AscendingUnique(a[1..], b[1..]);
    }
  }

  // ----- what the walk finds, declaratively -----

  /** A file at depth 0, or at depth 1 in a subdirectory that can be listed. */
  ghost predicate Found(root: seq<Entry>, extensions: seq<string>, f: ConfigFile) {
    || (exists e | e in root :: Exposed(e, extensions) && f == ConfigFile(e.name, e.node.content.value))
    || (exists d | d in root :: FoundIn(d, extensions, f))
  }

  ghost predicate FoundIn(d: Entry, extensions: seq<string>, f: ConfigFile) {
    && d.node.Dir? && d.node.listing.Some?
    && exists e | e in d.node.listing.value ::
         Exposed(e, extensions) && f == ConfigFile(RelName(Some(d.name), e.name), e.node.content.value)
  }

  lemma {:induction false} WalkSubdirectory(d: string, entries: seq<Entry>, extensions: seq<string>, f: ConfigFile)
    ensures f in Walk(Some(d), entries, extensions) <==>
            exists e | e in entries ::
              Exposed(e, extensions) && f == ConfigFile(RelName(Some(d), e.name), e.node.content.value)
  {
    if entries != [] {
      var n := |entries| - 1;
      WalkSubdirectory(d, entries[..n], extensions, f);
      assert forall e :: e in entries <==> e in entries[..n] || e == entries[n];
    }
  }

  lemma {:induction false} WalkFinds(root: seq<Entry>, extensions: seq<string>, f: ConfigFile)
    ensures f in Walk(None, root, extensions) <==> Found(root, extensions, f)
  {
    if root != [] {
      var n := |root| - 1;
      var last := root[n];
      WalkFinds(root[..n], extensions, f);
      assert forall e :: e in root <==> e in root[..n] || e == last;
      if last.node.Dir? && last.node.listing.Some? {
        WalkSubdirectory(last.name, last.node.listing.value, extensions, f);
      }
      assert f in Contribution(None, last, extensions) <==>
             FoundIn(last, extensions, f) ||
             (Exposed(last, extensions) && f == ConfigFile(last.name, last.node.content.value));
    }
  }

  // ----- names are distinct -----

  /** What a file system guarantees of one directory's names. */
  ghost predicate ProperNames(entries: seq<Entry>) {
    && (forall e | e in entries :: '/' !in e.name)
    && (forall i, j | 0 <= i < j < |entries| :: entries[i].name != entries[j].name)
  }

  ghost predicate ProperTree(root: seq<Entry>) {
    && ProperNames(root)
    && forall d | d in root && d.node.Dir? && d.node.listing.Some? :: ProperNames(d.node.listing.value)
  }

  /** The first component of a relative name. */
  function Top(name: string): string {
    Split(name, '/')[0]
  }

  lemma RelNameParts(dir: Option<string>, name: string)
    requires '/' !in name && (dir.Some? ==> '/' !in dir.value)
    ensures Split(RelName(dir, name), '/') == if dir.Some? then [dir.value, name] else [name]
  {
    SplitFree(name, '/');
    if dir.Some? {
      SplitFree(dir.value, '/');
      SplitAppend(dir.value, name, '/');
    }
  }

  lemma {:induction false} SubdirectoryNames(d: string, entries: seq<Entry>, extensions: seq<string>)
    requires '/' !in d && ProperNames(entries)
    ensures var files := Walk(Some(d), entries, extensions);
            && DistinctNames(files)
            && (forall f | f in files :: Top(f.name) == d)
            && (forall f | f in files :: exists e | e in entries :: f.name == RelName(Some(d), e.name))
  {
    if entries != [] {
      var n := |entries| - 1;
      var last := entries[n];
      SubdirectoryNames(d, entries[..n], extensions);
      RelNameParts(Some(d), last.name);
      forall f | f in Walk(Some(d), entries[..n], extensions)
        ensures f.name != RelName(Some(d), last.name)
      {
        var e :| e in entries[..n] && f.name == RelName(Some(d), e.name);
        RelNameParts(Some(d), e.name);
      }
    }
  }

  lemma {:induction false} WalkNamesDistinct(root: seq<Entry>, extensions: seq<string>)
    requires ProperTree(root)
    ensures var files := Walk(None, root, extensions);
            && DistinctNames(files)
            && (forall f | f in files :: exists e | e in root :: Top(f.name) == e.name)
  {
    if root != [] {
      var n := |root| - 1;
      var last := root[n];
      WalkNamesDistinct(root[..n], extensions);
      if last.node.Dir? {
        if last.node.listing.Some? {
          SubdirectoryNames(last.name, last.node.listing.value, extensions);
        }
      } else {
        RelNameParts(None, last.name);
      }
      assert forall f | f in Contribution(None, last, extensions) :: Top(f.name) == last.name;
      forall f | f in Walk(None, root[..n], extensions)
        ensures Top(f.name) != last.name
      {
        var e :| e in root[..n] && Top(f.name) == e.name;
      }
    }
  }

  // ----- the result -----

  /** `read_extra_files`: nothing if the directory has no canonical path. */
  method ReadExtraFiles(canonical: bool, listing: Option<seq<Entry>>, extensions: seq<string>)
      returns (files: seq<ConfigFile>)
    requires listing.Some? ==> ProperTree(listing.value)
    ensures Ascending(files)
    ensures forall f :: f in files <==>
              canonical && listing.Some? && Found(listing.value, extensions, f)
  {
    if !canonical {
      return [];
    }
    files := Collect(None, listing, extensions, []);
    if listing.Some? {
      WalkNamesDistinct(listing.value, extensions);
      SortSpec(files);
      forall f
        ensures f in files <==> Found(listing.value, extensions, f)
      {
        WalkFinds(listing.value, extensions, f);
      }
    }
    files := Sort(files);
  }

  /** The same directory listed in another order, at both levels. */
  ghost predicate SameEntry(a: Entry, b: Entry) {
    && a.name == b.name
    && if a.node.Dir? && b.node.Dir? && a.node.listing.Some? && b.node.listing.Some?
       then forall e :: e in a.node.listing.value <==> e in b.node.listing.value
       else a.node == b.node
  }

  ghost predicate HasSame(b: seq<Entry>, e: Entry) {
    exists g | g in b :: SameEntry(e, g)
  }

  ghost predicate Relisted(a: seq<Entry>, b: seq<Entry>) {
    && (forall e | e in a :: HasSame(b, e))
    && (forall e | e in b :: HasSame(a, e))
  }

  lemma RelistedFinds(a: seq<Entry>, b: seq<Entry>, extensions: seq<string>, f: ConfigFile)
    requires Relisted(a, b) && Found(a, extensions, f)
    ensures Found(b, extensions, f)
  {}

  /** The order in which directories are listed does not matter, so two callers that
      walk the same tree report the same list. */
  lemma OrderIndependent(a: seq<Entry>, b: seq<Entry>, extensions: seq<string>)
    requires ProperTree(a) && ProperTree(b) && Relisted(a, b)
    ensures Sort(Walk(None, a, extensions)) == Sort(Walk(None, b, extensions))
  {
    WalkNamesDistinct(a, extensions);
    WalkNamesDistinct(b, extensions);
    SortSpec(Walk(None, a, extensions));
    SortSpec(Walk(None, b, extensions));
    forall f
      ensures f in Walk(None, a, extensions) <==> f in Walk(None, b, extensions)
    {
      WalkFinds(a, extensions, f);
      WalkFinds(b, extensions, f);
      if Found(a, extensions, f) {
        RelistedFinds(a, b, extensions, f);
      }
      if Found(b, extensions, f) {
        RelistedFinds(b, a, extensions, f);
      }
    }
    AscendingUnique(Sort(Walk(None, a, extensions)), Sort(Walk(None, b, extensions)));
  }

  // ----- the result by name -----

  /** The entry is in the root directory, or in a listed subdirectory of this name. */
  ghost predicate Placed(root: seq<Entry>, dir: Option<string>, e: Entry) {
    match dir
    case None => e in root
    case Some(d) => exists g | g in root :: g.name == d && Holds(g, e)
  }

  ghost predicate Holds(d: Entry, e: Entry) {
    d.node.Dir? && d.node.listing.Some? && e in d.node.listing.value
  }

  /** Which names are exposed, on the text of the name: never the compose files; with a
      dot, those that end in a listed extension; without, the three well-known ones. */
  lemma ExposedIff(e: Entry, extensions: seq<string>)
    ensures Exposed(e, extensions) <==>
              && e.node.File? && e.node.content.Some? && e.node.inside != Some(false)
              && e.name != "docker-compose.yaml" && e.name != "docker-compose.yml"
              && (if '.' in e.name then exists k | 0 <= k <= |e.name| :: e.name[k..] in extensions
                  else e.name == "Caddyfile" || e.name == "Dockerfile" || e.name == "Makefile")
  {
    MatchesIff(e.name, extensions);
  }

  lemma MatchesIff(name: string, extensions: seq<string>)
    ensures Matches(name, extensions) <==>
              if '.' in name then exists k | 0 <= k <= |name| :: name[k..] in extensions
              else name == "Caddyfile" || name == "Dockerfile" || name == "Makefile"
  {
    TailListed(name, extensions);
  }

  lemma TailListed(name: string, extensions: seq<string>)
    ensures (exists ext | ext in extensions :: EndsWith(name, ext)) <==>
            (exists k | 0 <= k <= |name| :: name[k..] in extensions)
  {
    if exists ext | ext in extensions :: EndsWith(name, ext) {
      var ext :| ext in extensions && EndsWith(name, ext);
      assert name[|name| - |ext|..] in extensions;
    }
    if k :| 0 <= k <= |name| && name[k..] in extensions {
      var tail := name[k..];
      assert tail in extensions && EndsWith(name, tail);
    }
  }

  /** In a proper tree only one file bears a relative name. */
  lemma FoundIsThis(root: seq<Entry>, extensions: seq<string>, dir: Option<string>, e: Entry, f: ConfigFile)
    requires ProperTree(root) && Placed(root, dir, e) && e.node.File?
    requires Found(root, extensions, f) && f.name == RelName(dir, e.name)
    ensures Exposed(e, extensions) && f.content == e.node.content.value
  {
    var dir', e' := PlaceOf(root, extensions, f);
    PartsOfPlaced(root, dir, e);
    PartsOfPlaced(root, dir', e');
    assert dir == dir' && e.name == e'.name;
    SamePlace(root, dir, e, e');
  }

  lemma PlaceOf(root: seq<Entry>, extensions: seq<string>, f: ConfigFile) returns (dir: Option<string>, e: Entry)
    requires Found(root, extensions, f)
    ensures Placed(root, dir, e) && Exposed(e, extensions)
    ensures f == ConfigFile(RelName(dir, e.name), e.node.content.value)
  {
    if e' :| e' in root && Exposed(e', extensions) && f == ConfigFile(e'.name, e'.node.content.value) {
      dir, e := None, e';
    } else {
      var d :| d in root && FoundIn(d, extensions, f);
      dir := Some(d.name);
      e :| e in d.node.listing.value &&
        Exposed(e, extensions) && f == ConfigFile(RelName(Some(d.name), e.name), e.node.content.value);
      assert Holds(d, e);
    }
  }

  lemma PartsOfPlaced(root: seq<Entry>, dir: Option<string>, e: Entry)
    requires ProperTree(root) && Placed(root, dir, e)
    ensures Split(RelName(dir, e.name), '/') == if dir.Some? then [dir.value, e.name] else [e.name]
  {
    if dir.Some? {
      var g :| g in root && g.name == dir.value && Holds(g, e);
      assert ProperNames(g.node.listing.value);
    }
    RelNameParts(dir, e.name);
  }

  lemma OneEntry(entries: seq<Entry>, a: Entry, b: Entry)
    requires ProperNames(entries) && a in entries && b in entries && a.name == b.name
    ensures a == b
  {
    var i :| 0 <= i < |entries| && entries[i] == a;
    var j :| 0 <= j < |entries| && entries[j] == b;
    assert i == j;
  }

  lemma SamePlace(root: seq<Entry>, dir: Option<string>, a: Entry, b: Entry)
    requires ProperTree(root) && Placed(root, dir, a) && Placed(root, dir, b) && a.name == b.name
    ensures a == b
  {
    if dir.Some? {
      var g :| g in root && g.name == dir.value && Holds(g, a);
      var h :| h in root && h.name == dir.value && Holds(h, b);
      OneEntry(root, g, h);
      OneEntry(g.node.listing.value, a, b);
    } else {
      OneEntry(root, a, b);
    }
  }

  lemma ExposedIsFound(root: seq<Entry>, extensions: seq<string>, dir: Option<string>, e: Entry)
    requires Placed(root, dir, e) && Exposed(e, extensions)
    ensures Found(root, extensions, ConfigFile(RelName(dir, e.name), e.node.content.value))
  {
    var f := ConfigFile(RelName(dir, e.name), e.node.content.value);
    if dir.Some? {
      var g :| g in root && g.name == dir.value && Holds(g, e);
      assert FoundIn(g, extensions, f);
    }
  }

  /** The whole law by name: a file of the tree is in the result, under its own name or
      directory/name and with its own content, exactly when it is readable, does not lead
      outside, is not one of the compose files, and, if its name has a dot, some tail of
      the name is a listed extension, or else it has one of three well-known names. */
  lemma ResultByName(root: seq<Entry>, extensions: seq<string>, dir: Option<string>, e: Entry, content: string)
    requires ProperTree(root) && Placed(root, dir, e) && e.node.File?
    ensures var name := if dir.Some? then dir.value + "/" + e.name else e.name;
            ConfigFile(name, content) in Sort(Walk(None, root, extensions)) <==>
              && e.node.content == Some(content) && e.node.inside != Some(false)
              && e.name != "docker-compose.yaml" && e.name != "docker-compose.yml"
              && (if '.' in e.name then exists k | 0 <= k <= |e.name| :: e.name[k..] in extensions
                  else e.name == "Caddyfile" || e.name == "Dockerfile" || e.name == "Makefile")
  {
    var f := ConfigFile(RelName(dir, e.name), content);
    WalkNamesDistinct(root, extensions);
    SortSpec(Walk(None, root, extensions));
    WalkFinds(root, extensions, f);
    ExposedIff(e, extensions);
    if Found(root, extensions, f) {
      FoundIsThis(root, extensions, dir, e, f);
    }
    if Exposed(e, extensions) && e.node.content == Some(content) {
      ExposedIsFound(root, extensions, dir, e);
    }
  }

  /** And there is nothing else in it. */
  lemma ResultIsPlaced(root: seq<Entry>, extensions: seq<string>, f: ConfigFile) returns (dir: Option<string>, e: Entry)
    requires ProperTree(root) && f in Sort(Walk(None, root, extensions))
    ensures Placed(root, dir, e) && e.node.File? && e.node.content == Some(f.content)
    ensures f.name == if dir.Some? then dir.value + "/" + e.name else e.name
  {
    WalkNamesDistinct(root, extensions);
    SortSpec(Walk(None, root, extensions));
    WalkFinds(root, extensions, f);
    dir, e := PlaceOf(root, extensions, f);
  }

  /** The order of names: the first difference decides, and a proper prefix comes first. */
  lemma {:induction false} LessIff(a: string, b: string)
    ensures Less(a, b) <==>
              exists k | 0 <= k <= |a| && k < |b| :: a[..k] == b[..k] && (k == |a| || a[k] < b[k])
  {
    if a == "" || b == "" {
      if b != "" {
        assert a[..0] == b[..0];
      }
    } else if a[0] == b[0] {
      LessIff(a[1..], b[1..]);
      if Less(a[1..], b[1..]) {
        var k :| 0 <= k <= |a[1..]| && k < |b[1..]| && a[1..][..k] == b[1..][..k] &&
          (k == |a[1..]| || a[1..][k] < b[1..][k]);
        assert a[..k + 1] == [a[0]] + a[1..][..k] && b[..k + 1] == [b[0]] + b[1..][..k];
      }
      if k :| 0 <= k <= |a| && k < |b| && a[..k] == b[..k] && (k == |a| || a[k] < b[k]) {
        assert k > 0;
        assert a[1..][..k - 1] == a[..k][1..] == b[..k][1..] == b[1..][..k - 1];
      }
    } else {
      if a[0] < b[0] {
        assert a[..0] == b[..0];
      }
    }
  }
}
