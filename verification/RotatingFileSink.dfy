/** spdlog's rotating file sink over a directory of named files. */
module RotatingFileSink {
  import opened Arithmetic
  import opened Document
  import opened Numbers

  // ----- file names -----

  /** The last position of a character, if it occurs. */
  function RFind(s: string, c: char): (k: Option<nat>)
    ensures k.Some? ==> k.value < |s| && s[k.value] == c && forall i :: k.value < i < |s| ==> s[i] != c
    ensures k.None? ==> c !in s
  {
    if s == "" then None
    else if s[|s| - 1] == c then Some(|s| - 1)
    else
      assert s == s[..|s| - 1] + [s[|s| - 1]];
      RFind(s[..|s| - 1], c)
  }

  const FOLDER_SEP: char := '/'

  /** Base and extension; the dot that starts a name, or ends it, or belongs to a folder, starts no
      extension. */
  function SplitByExtension(name: string): (r: (string, string))
    ensures r.0 + r.1 == name
  {
    var dot := RFind(name, '.');
    if dot.None? || dot.value == 0 || dot.value == |name| - 1 then (name, "")
    else
      var folder := RFind(name, FOLDER_SEP);
      if folder.Some? && folder.value >= dot.value - 1 then (name, "")
      else (name[..dot.value], name[dot.value..])
  }

  function CalcFilename(name: string, index: nat): string {
    if index == 0 then name
    else
      var (basename, ext) := SplitByExtension(name);
      basename + "." + Digits(index) + ext
  }

  /** Different indices give different names. */
  lemma NamesDiffer(name: string, i: nat, j: nat)
    requires i != j
    ensures CalcFilename(name, i) != CalcFilename(name, j)
  {
    var (basename, ext) := SplitByExtension(name);
    if i != 0 && j != 0 && CalcFilename(name, i) == CalcFilename(name, j) {
      var a, b := CalcFilename(name, i), CalcFilename(name, j);
      assert |Digits(i)| == |Digits(j)|;
      assert Digits(i) == a[|basename| + 1..|a| - |ext|] && Digits(j) == b[|basename| + 1..|b| - |ext|];
      DigitsInjective(i, j);
    } else if i == 0 {
      assert |CalcFilename(name, j)| > |name|;
    } else if j == 0 {
      assert |CalcFilename(name, i)| > |name|;
    }
  }

  /** An extension: a dot and something behind it, neither another dot nor a folder. */
  predicate IsExtension(ext: string) {
    |ext| > 1 && ext[0] == '.' && '.' !in ext[1..] && FOLDER_SEP !in ext
  }

  /** The name of a file in its folder, which is empty or ends with a separator. */
  predicate InFolder(folder: string, file: string) {
    (folder == "" || folder[|folder| - 1] == FOLDER_SEP) && FOLDER_SEP !in file
  }

  lemma RFindAt(a: string, c: char, b: string)
    requires c !in b
    ensures RFind(a + [c] + b, c) == Some(|a|)
  {
    var s := a + [c] + b;
    assert s[|a|] == c;
    assert forall i :: |a| < i < |s| ==> s[i] == b[i - |a| - 1];
  }

  /** The index goes between a name and its extension. */
  lemma IndexBeforeExtension(folder: string, stem: string, ext: string, index: nat)
    requires InFolder(folder, stem) && stem != "" && IsExtension(ext) && index > 0
    ensures SplitByExtension(folder + stem + ext) == (folder + stem, ext)
    ensures CalcFilename(folder + stem + ext, index) == folder + stem + "." + Digits(index) + ext
  {
    var name := folder + stem + ext;
    RFindAt(folder + stem, '.', ext[1..]);
    assert name == folder + stem + ['.'] + ext[1..];
    if folder != "" {
      assert folder == folder[..|folder| - 1] + [FOLDER_SEP];
      RFindAt(folder[..|folder| - 1], FOLDER_SEP, stem + ext);
      assert name == folder[..|folder| - 1] + [FOLDER_SEP] + (stem + ext);
    } else {
      assert FOLDER_SEP !in name;
    }
  }

  /** Without an extension - no dot, or only one that starts the name or ends it - the index goes to
      the end. */
  lemma IndexAtEnd(folder: string, file: string, index: nat)
    requires InFolder(folder, file) && index > 0
    requires '.' !in file || file[|file| - 1] == '.' || (file[0] == '.' && '.' !in file[1..])
    ensures SplitByExtension(folder + file) == (folder + file, "")
    ensures CalcFilename(folder + file, index) == folder + file + "." + Digits(index)
  {
    var name := folder + file;
    var dot, sep := RFind(name, '.'), RFind(name, FOLDER_SEP);
    if folder != "" {
      assert folder == folder[..|folder| - 1] + [FOLDER_SEP];
      RFindAt(folder[..|folder| - 1], FOLDER_SEP, file);
      assert name == folder[..|folder| - 1] + [FOLDER_SEP] + file;
    } else {
      assert FOLDER_SEP !in name;
    }
    if '.' !in file {
      assert dot.Some? ==> dot.value < |folder|;
    } else if file[|file| - 1] == '.' {
      assert name[|name| - 1] == '.';
    } else {
      RFindAt(folder, '.', file[1..]);
      assert name == folder + ['.'] + file[1..];
    }
    assert SplitByExtension(name) == (name, "");
    assert name + "." + Digits(index) + "" == name + "." + Digits(index);
  }

  // ----- messages and files -----

  function Join(messages: seq<string>): string {
    if messages == [] then "" else messages[0] + Join(messages[1..])
  }

  lemma {:induction false} JoinConcat(a: seq<string>, b: seq<string>)
    ensures Join(a + b) == Join(a) + Join(b)
    decreases |a|
  {
    if a == [] {
      assert a + b == b;
    } else {
      assert (a + b)[1..] == a[1..] + b;
      JoinConcat(a[1..], b);
    }
  }

  /** The messages of all files, the newest file first, in the order they were logged. */
  function Chronicle(groups: seq<seq<string>>): seq<string> {
    if groups == [] then [] else Chronicle(groups[1..]) + groups[0]
  }

  predicate IsSuffix(s: seq<string>, log: seq<string>) {
    |s| <= |log| && s == log[|log| - |s|..]
  }

  /** Dropping the oldest files leaves a suffix. */
  lemma {:induction false} NewestFiles(groups: seq<seq<string>>, k: nat)
    requires k <= |groups|
    ensures IsSuffix(Chronicle(groups[..k]), Chronicle(groups))
    decreases |groups|
  {
    if k > 0 {
      NewestFiles(groups[1..], k - 1);
      assert groups[..k][1..] == groups[1..][..k - 1] && groups[..k][0] == groups[0];
      var kept, rest := Chronicle(groups[1..][..k - 1]), Chronicle(groups[1..]);
      assert (rest + groups[0])[|rest + groups[0]| - |kept + groups[0]|..] == kept + groups[0];
    }
  }

  lemma SuffixOfSuffix(a: seq<string>, b: seq<string>, c: seq<string>)
    requires IsSuffix(a, b) && IsSuffix(b, c)
    ensures IsSuffix(a, c)
  {
  }

  lemma SuffixExtended(a: seq<string>, b: seq<string>, m: string)
    requires IsSuffix(a, b)
    ensures IsSuffix(a + [m], b + [m])
  {
  }

  function Longest(messages: seq<string>): nat {
    if messages == [] then 0 else Max(|messages[0]|, Longest(messages[1..]))
  }

  // ----- files by index -----

  type Files = map<string, string>

  /** The file of index i holds its group of messages, or does not exist. */
  predicate FileIs(files: Files, base: string, i: nat, groups: seq<seq<string>>) {
    var name := CalcFilename(base, i);
    if i < |groups| then name in files && files[name] == Join(groups[i]) else name !in files
  }

  predicate OnDisk(files: Files, base: string, maxFiles: nat, groups: seq<seq<string>>) {
    forall i :: 0 <= i <= maxFiles ==> FileIs(files, base, i, groups)
  }

  /** Writing one file leaves the others. */
  lemma OtherFile(files: Files, base: string, i: nat, k: nat, text: string, groups: seq<seq<string>>)
    requires i != k
    ensures FileIs(files[CalcFilename(base, k) := text], base, i, groups) <==> FileIs(files, base, i, groups)
  {
    NamesDiffer(base, i, k);
  }

  /** The files when those from index i on have moved up by one. */
  predicate MovedFrom(files: Files, base: string, maxFiles: nat, i: nat, groups: seq<seq<string>>) {
    && i <= maxFiles
    && (forall j :: 0 <= j < i ==> FileIs(files, base, j, groups))
    && (if i == maxFiles then FileIs(files, base, i, groups) else CalcFilename(base, i) !in files)
    && forall j :: i < j <= maxFiles ==> FileIs(files, base, j, [[]] + groups)
  }

  /** One step of the cascade. */
  function MovedUp(files: Files, base: string, i: nat): Files
    requires i > 0
  {
    var source, target := CalcFilename(base, i - 1), CalcFilename(base, i);
    if source in files then (files - {target})[target := files[source]] - {source} else files
  }

  lemma FileAfterMove(files: Files, base: string, i: nat, j: nat, groups: seq<seq<string>>)
    requires i > 0 && j != i && j != i - 1
    ensures FileIs(MovedUp(files, base, i), base, j, groups) <==> FileIs(files, base, j, groups)
  {
    NamesDiffer(base, j, i);
    NamesDiffer(base, j, i - 1);
    hide CalcFilename, Join;
  }

  lemma MoveStep(files: Files, base: string, maxFiles: nat, i: nat, groups: seq<seq<string>>)
    requires i > 0 && MovedFrom(files, base, maxFiles, i, groups)
    ensures MovedFrom(MovedUp(files, base, i), base, maxFiles, i - 1, groups)
  {
    var after := MovedUp(files, base, i);
    NamesDiffer(base, i, i - 1);
    assert FileIs(files, base, i - 1, groups);
    hide CalcFilename, Join;
    forall j | 0 <= j < i - 1
      ensures FileIs(after, base, j, groups)
    {
      FileAfterMove(files, base, i, j, groups);
    }
    assert FileIs(after, base, i, [[]] + groups);
    forall j | i < j <= maxFiles
      ensures FileIs(after, base, j, [[]] + groups)
    {
      FileAfterMove(files, base, i, j, [[]] + groups);
    }
  }

  /** The groups after a rotation: an empty file, and as many of the others as may be kept. */
  function Rotated(groups: seq<seq<string>>, maxFiles: nat): (r: seq<seq<string>>)
    ensures |r| == Min(|groups|, maxFiles) + 1 && r[0] == []
    ensures forall i :: 1 <= i < |r| ==> r[i] == groups[i - 1]
  {
    [[]] + groups[..Min(|groups|, maxFiles)]
  }

  lemma CascadeDone(files: Files, base: string, maxFiles: nat, groups: seq<seq<string>>)
    requires MovedFrom(files, base, maxFiles, 0, groups)
    ensures OnDisk(files[CalcFilename(base, 0) := ""], base, maxFiles, Rotated(groups, maxFiles))
  {
    var after := files[CalcFilename(base, 0) := ""];
    forall i | 0 <= i <= maxFiles
      ensures FileIs(after, base, i, Rotated(groups, maxFiles))
    {
      if i > 0 {
        assert FileIs(files, base, i, [[]] + groups);
        OtherFile(files, base, i, 0, "", [[]] + groups);
      }
    }
  }

  class Directory {
    var files: Files

    constructor ()
      ensures files == map[]
    {
      files := map[];
    }
  }

  /** Each file is no bigger than the limit, or holds a single message. */
  predicate Bounded(groups: seq<seq<string>>, maxSize: nat) {
    forall i :: 0 <= i < |groups| ==> |Join(groups[i])| <= maxSize || |groups[i]| == 1
  }

  function Biggest(groups: seq<seq<string>>): nat {
    if groups == [] then 0 else Max(|Join(groups[0])|, Biggest(groups[1..]))
  }

  lemma {:induction false} BiggestBounds(groups: seq<seq<string>>)
    ensures forall i :: 0 <= i < |groups| ==> |Join(groups[i])| <= Biggest(groups)
    decreases |groups|
  {
    if groups != [] {
      BiggestBounds(groups[1..]);
      forall i | 0 < i < |groups|
        ensures |Join(groups[i])| <= Biggest(groups)
      {
        assert groups[i] == groups[1..][i - 1];
      }
    }
  }

  /** The messages of each file and the size the sink believes the current one has. */
  datatype Books = Books(groups: seq<seq<string>>, size: nat)

  function FirstText(groups: seq<seq<string>>): string {
    if groups == [] then "" else Join(groups[0])
  }

  /** A sink that has just been opened. */
  function Started(prior: seq<seq<string>>, rotateOnOpen: bool, maxFiles: nat): Books {
    var groups := if prior == [] then [[]] else prior;
    Books(if rotateOnOpen && FirstText(prior) != "" then Rotated(groups, maxFiles) else groups, |FirstText(prior)|)
  }

  /** A sink that has logged one more message. */
  function Sunk(b: Books, m: string, maxSize: nat, maxFiles: nat): Books
    requires b.groups != []
  {
    if b.size + |m| > maxSize then Books(Rotated(b.groups, maxFiles)[0 := [m]], |m|)
    else Books(b.groups[0 := b.groups[0] + [m]], b.size + |m|)
  }

  class Sink {
    const dir: Directory
    const baseFilename: string
    const maxSize: nat
    const maxFiles: nat
    var currentSize: nat

    /** No file is bigger, but for one that holds a single message: the limit for new files, unless
        there were bigger ones. */
    ghost const bound: nat
    /** Everything that was logged, and the messages of each file, the current file first. */
    ghost var log: seq<string>
    ghost var groups: seq<seq<string>>

    ghost predicate Opened()
      reads this, dir
    {
      1 <= |groups| <= maxFiles + 1 && OnDisk(dir.files, baseFilename, maxFiles, groups) && IsSuffix(Chronicle(groups), log)
    }

    /** The files are a contiguous range of indices and hold the last messages of the log; the
        current file is no bigger than the sink believes. */
    ghost predicate Valid()
      reads this, dir
    {
      Opened() && currentSize >= |Join(groups[0])| && maxSize <= bound && Bounded(groups, bound)
    }

    /** What the sink believes of its current file is true. */
    ghost predicate SizeIsExact()
      reads this
    {
      groups != [] && currentSize == |Join(groups[0])|
    }

    ghost function Model(): Books
      reads this
    {
      Books(groups, currentSize)
    }

    /** Opens the sink in a directory that holds what a previous one has left, or nothing.  After a
        rotation on opening the size of the old file is still the current one. */
    constructor (dir: Directory, baseFilename: string, maxSize: nat, maxFiles: nat, rotateOnOpen: bool, ghost prior: seq<seq<string>>)
      requires |prior| <= maxFiles + 1 && OnDisk(dir.files, baseFilename, maxFiles, prior)
      modifies dir
      ensures this.dir == dir && this.baseFilename == baseFilename && this.maxSize == maxSize && this.maxFiles == maxFiles
      ensures bound == Max(maxSize, Biggest(prior))
      ensures Valid() && log == Chronicle(prior) && Model() == Started(prior, rotateOnOpen, maxFiles)
      ensures SizeIsExact() <==> !(rotateOnOpen && FirstText(prior) != "")
    {
      this.dir, this.baseFilename, this.maxSize, this.maxFiles := dir, baseFilename, maxSize, maxFiles;
      currentSize, bound := 0, Max(maxSize, Biggest(prior));
      BiggestBounds(prior);
      log, groups := Chronicle(prior), if prior == [] then [[]] else prior;
      new;
      ghost var files := dir.files;
      assert FileIs(files, baseFilename, 0, prior);
      Open(false);
      if prior == [] {
        forall i | 0 <= i <= maxFiles
          ensures FileIs(dir.files, baseFilename, i, [[]])
        {
          assert FileIs(files, baseFilename, i, prior);
          if i > 0 {
            OtherFile(files, baseFilename, i, 0, "", [[]]);
          }
        }
      }
      assert FileIs(dir.files, baseFilename, 0, groups);
      currentSize := |dir.files[CalcFilename(baseFilename, 0)]|;
      if rotateOnOpen && currentSize > 0 {
        Rotate();
      }
    }

    /** Opens the current file, to append or emptied. */
    method Open(truncate: bool)
      modifies dir
      ensures var name := CalcFilename(baseFilename, 0);
              dir.files == if truncate || name !in old(dir.files) then old(dir.files)[name := ""] else old(dir.files)
    {
      var name := CalcFilename(baseFilename, 0);
      if truncate || name !in dir.files {
        dir.files := dir.files[name := ""];
      }
    }

    /** Deletes the target if it exists, and renames. */
    method RenameFile(source: string, target: string)
      requires source in dir.files && source != target
      modifies dir
      ensures dir.files == (old(dir.files) - {target})[target := old(dir.files)[source]] - {source}
    {
      dir.files := dir.files - {target};
      dir.files := dir.files[target := dir.files[source]] - {source};
    }

    /** Moves every file to the next index, and starts an empty one; the last file is lost. */
    method Rotate()
      requires Opened()
      modifies this`groups, dir
      ensures Opened() && groups == Rotated(old(groups), maxFiles)
    {
      hide CalcFilename;
      var i := maxFiles;
      while i > 0
        invariant 0 <= i && groups == old(groups) && MovedFrom(dir.files, baseFilename, maxFiles, i, groups)
      {
        MoveStep(dir.files, baseFilename, maxFiles, i, groups);
        NamesDiffer(baseFilename, i - 1, i);
        var source := CalcFilename(baseFilename, i - 1);
        if source in dir.files {
          RenameFile(source, CalcFilename(baseFilename, i));
        }
        i := i - 1;
      }
      CascadeDone(dir.files, baseFilename, maxFiles, groups);
      KeepsSuffix(groups, maxFiles, log);
      Open(true);
      groups := Rotated(groups, maxFiles);
    }

    /** Writes a formatted message, rotating first if the file would grow beyond its limit. */
    method SinkIt(formatted: string)
      requires Valid()
      modifies this`currentSize, this`log, this`groups, dir
      ensures Valid() && log == old(log) + [formatted]
      ensures Model() == Sunk(old(Model()), formatted, maxSize, maxFiles)
      ensures SizeIsExact() <==> old(SizeIsExact()) || old(currentSize) + |formatted| > maxSize
    {
      assert [] + [formatted] == [formatted];
      JoinOne([], formatted);
      currentSize := currentSize + |formatted|;
      if currentSize > maxSize {
        Rotate();
        currentSize := |formatted|;
      }
      Write(formatted);
    }

    /** Appends to the current file. */
    method Write(formatted: string)
      requires Opened() && currentSize >= |Join(groups[0])| + |formatted| && (currentSize <= maxSize || groups[0] == [])
      requires maxSize <= bound && Bounded(groups[1..], bound)
      modifies this`log, this`groups, dir
      ensures Valid() && log == old(log) + [formatted] && groups == old(groups)[0 := old(groups)[0] + [formatted]]
      ensures |Join(groups[0])| == |Join(old(groups)[0])| + |formatted|
    {
      var name := CalcFilename(baseFilename, 0);
      ghost var files, g := dir.files, groups;
      assert FileIs(files, baseFilename, 0, g);
      dir.files := dir.files[name := dir.files[name] + formatted];
      groups := groups[0 := groups[0] + [formatted]];
      log := log + [formatted];
      JoinOne(g[0], formatted);
      Grown(g, formatted, log[..|log| - 1]);
      forall i | 0 <= i <= maxFiles
        ensures FileIs(dir.files, baseFilename, i, groups)
      {
        assert FileIs(files, baseFilename, i, g);
        if i > 0 {
          OtherFile(files, baseFilename, i, 0, dir.files[name], g);
        }
      }
      forall i | 0 <= i < |groups|
        ensures |Join(groups[i])| <= bound || |groups[i]| == 1
      {
        assert i > 0 ==> groups[i] == g[1..][i - 1];
      }
    }

    /** After any number of messages the files, the oldest first, hold exactly the end of the log,
        cut between two messages. */
    method LogAll(messages: seq<string>)
      requires Valid()
      modifies this`currentSize, this`log, this`groups, dir
      ensures Valid() && log == old(log) + messages
      ensures old(SizeIsExact()) ==> SizeIsExact()
    {
      for i := 0 to |messages|
        invariant Valid() && log == old(log) + messages[..i]
        invariant old(SizeIsExact()) ==> SizeIsExact()
      {
        SinkIt(messages[i]);
        assert messages[..i + 1] == messages[..i] + [messages[i]];
      }
      assert messages[..|messages|] == messages;
    }
  }

  /** One more message in the current file is one more in the chronicle. */
  lemma Grown(groups: seq<seq<string>>, m: string, log: seq<string>)
    requires groups != [] && IsSuffix(Chronicle(groups), log)
    ensures IsSuffix(Chronicle(groups[0 := groups[0] + [m]]), log + [m])
  {
    var after := groups[0 := groups[0] + [m]];
    assert after[1..] == groups[1..];
    assert Chronicle(after) == Chronicle(groups) + [m];
    SuffixExtended(Chronicle(groups), log, m);
  }

  lemma JoinOne(messages: seq<string>, m: string)
    ensures Join(messages + [m]) == Join(messages) + m
  {
    JoinConcat(messages, [m]);
    assert Join([m]) == m + Join([]);
  }

  /** A rotation keeps a suffix. */
  lemma KeepsSuffix(groups: seq<seq<string>>, maxFiles: nat, log: seq<string>)
    requires IsSuffix(Chronicle(groups), log)
    ensures IsSuffix(Chronicle(Rotated(groups, maxFiles)), log)
  {
    var k := Min(|groups|, maxFiles);
    EmptyFirst(groups[..k]);
    NewestFiles(groups, k);
    hide Chronicle, IsSuffix;
    SuffixOfSuffix(Chronicle(groups[..k]), Chronicle(groups), log);
  }

  lemma EmptyFirst(groups: seq<seq<string>>)
    ensures Chronicle([[]] + groups) == Chronicle(groups)
  {
    assert ([[]] + groups)[1..] == groups;
  }

  // ----- the text on disk -----

  /** The text of the files, the oldest first. */
  function TextOf(groups: seq<seq<string>>): string {
    if groups == [] then "" else TextOf(groups[1..]) + Join(groups[0])
  }

  lemma {:induction false} TextOfChronicle(groups: seq<seq<string>>)
    ensures TextOf(groups) == Join(Chronicle(groups))
    decreases |groups|
  {
    if groups != [] {
      TextOfChronicle(groups[1..]);
      JoinConcat(Chronicle(groups[1..]), groups[0]);
    }
  }

  lemma {:induction false} OldestFirst(groups: seq<seq<string>>, oldest: seq<string>)
    ensures TextOf(groups + [oldest]) == Join(oldest) + TextOf(groups)
    decreases |groups|
  {
    if groups == [] {
      assert groups + [oldest] == [oldest];
      assert TextOf([oldest]) == TextOf([]) + Join(oldest);
    } else {
      assert (groups + [oldest])[1..] == groups[1..] + [oldest];
      OldestFirst(groups[1..], oldest);
    }
  }

  /** The text of the files of the directory whose index is below k, the oldest first. */
  function TextOnDisk(files: Files, base: string, k: nat): string {
    if k == 0 then ""
    else
      var name := CalcFilename(base, k - 1);
      (if name in files then files[name] else "") + TextOnDisk(files, base, k - 1)
  }

  lemma {:induction false} FilesHold(files: Files, base: string, maxFiles: nat, groups: seq<seq<string>>, k: nat)
    requires OnDisk(files, base, maxFiles, groups) && k <= maxFiles + 1
    ensures TextOnDisk(files, base, k) == TextOf(groups[..Min(k, |groups|)])
    decreases k
  {
    if k > 0 {
      FilesHold(files, base, maxFiles, groups, k - 1);
      assert FileIs(files, base, k - 1, groups);
      if k <= |groups| {
        OldestFirst(groups[..k - 1], groups[k - 1]);
        assert groups[..k] == groups[..k - 1] + [groups[k - 1]];
      }
    }
  }

  predicate Contiguous(files: Files, base: string, maxFiles: nat, n: nat) {
    forall i :: 0 <= i <= maxFiles ==> (CalcFilename(base, i) in files <==> i < n)
  }

  /** The files in the directory have the indices 0 to n - 1; concatenated, the oldest first, they
      are the end of the text that was logged, cut between messages, and no file is longer than
      the limit, the files there were, or the longest message. */
  lemma FilesEndTheLog(sink: Sink)
    requires sink.Valid()
    ensures exists n :: 1 <= n <= sink.maxFiles + 1 && Contiguous(sink.dir.files, sink.baseFilename, sink.maxFiles, n)
    ensures exists k :: 0 <= k <= |sink.log| && TextOnDisk(sink.dir.files, sink.baseFilename, sink.maxFiles + 1) == Join(sink.log[k..])
    ensures forall i :: 0 <= i <= sink.maxFiles ==> var name := CalcFilename(sink.baseFilename, i);
              name in sink.dir.files ==> |sink.dir.files[name]| <= Max(sink.bound, Longest(sink.log))
  {
    var files, base, n := sink.dir.files, sink.baseFilename, |sink.groups|;
    var kept := Chronicle(sink.groups);
    TextOfChronicle(sink.groups);
    FilesHold(files, base, sink.maxFiles, sink.groups, sink.maxFiles + 1);
    assert sink.groups[..n] == sink.groups;
    assert sink.log[|sink.log| - |kept|..] == kept;
    forall i | 0 <= i <= sink.maxFiles
      ensures CalcFilename(base, i) in files <==> i < n
      ensures CalcFilename(base, i) in files ==> |files[CalcFilename(base, i)]| <= Max(sink.bound, Longest(sink.log))
    {
      assert FileIs(files, base, i, sink.groups);
      if i < n && |sink.groups[i]| == 1 {
        SingleMessage(sink.groups, i, sink.log);
      }
    }
    assert Contiguous(files, base, sink.maxFiles, n);
  }

  /** As long as the sink knows the size of its file, a message that fits goes behind the others, and
      no file is renamed; one that does not fit starts a new file, and every other file has the next
      index, as far as they are kept. */
  lemma SunkByFit(b: Books, m: string, maxSize: nat, maxFiles: nat)
    requires b.groups != [] && b.size == |Join(b.groups[0])|
    ensures var r := Sunk(b, m, maxSize, maxFiles);
            && r.size == |Join(r.groups[0])|
            && if |Join(b.groups[0])| + |m| <= maxSize then r.groups == [b.groups[0] + [m]] + b.groups[1..]
               else
                 && r.groups[0] == [m] && |r.groups| == Min(|b.groups|, maxFiles) + 1
                 && forall i :: 1 <= i < |r.groups| ==> r.groups[i] == b.groups[i - 1]
  {
    JoinConcat(b.groups[0], [m]);
    JoinOne([], m);
    assert [] + [m] == [m];
    assert Join([m]) == m + Join([m][1..]) && [m][1..] == [];
  }

  // ----- a size that is out of date -----

  /** The first message after a rotation on opening rotates the file that is still empty, and what
      is kept is one file less, exactly when old files are kept and it would not have fitted in the
      old file. */
  lemma OpeningRotatesAgain(prior: seq<seq<string>>, maxSize: nat, maxFiles: nat, m: string)
    requires FirstText(prior) != ""
    ensures var first := Sunk(Started(prior, true, maxFiles), m, maxSize, maxFiles);
            var exact := Sunk(Books(Rotated(prior, maxFiles), 0), m, maxSize, maxFiles);
            first.groups != exact.groups <==> maxFiles > 0 && |FirstText(prior)| + |m| > maxSize >= |m|
  {
    var kept := Rotated(prior, maxFiles);
    if maxFiles == 0 {
      assert kept == [[]] && Rotated(kept, 0) == [[]] && kept[0] + [m] == [m];
      return;
    }
    assert kept[1] == prior[0] != [] && Rotated(kept, maxFiles)[1] == kept[0] == [];
    var first := Sunk(Started(prior, true, maxFiles), m, maxSize, maxFiles);
    var exact := Sunk(Books(kept, 0), m, maxSize, maxFiles);
    assert first.groups[1] == if |FirstText(prior)| + |m| > maxSize then [] else prior[0];
    assert exact.groups[1] == if |m| > maxSize then [] else prior[0];
  }

  /** A log of 90 characters that was set aside on opening is lost with the first message. */
  lemma OpeningLosesLog(prior_log: string, m: string)
    requires |prior_log| == 90 && |m| == 20
    ensures var sink := Started([[prior_log]], true, 1);
            && sink.groups == [[], [prior_log]]
            && Sunk(sink, m, 100, 1).groups == [[m], []]
  {
    JoinOne([], prior_log);
    assert [prior_log] == [] + [prior_log];
    assert Rotated([[prior_log]], 1) == [[], [prior_log]];
    assert Rotated([[], [prior_log]], 1) == [[], []];
  }

  lemma SingleMessage(groups: seq<seq<string>>, i: nat, log: seq<string>)
    requires i < |groups| && |groups[i]| == 1 && IsSuffix(Chronicle(groups), log)
    ensures |Join(groups[i])| <= Longest(log)
  {
    var m := groups[i][0];
    assert groups[i] == [] + [m];
    JoinOne([], m);
    InChronicle(groups, i, m);
    assert m in log by {
      assert m in Chronicle(groups);
    }
    LongestBounds(log, m);
  }

  lemma {:induction false} InChronicle(groups: seq<seq<string>>, i: nat, m: string)
    requires i < |groups| && m in groups[i]
    ensures m in Chronicle(groups)
    decreases |groups|
  {
    if i > 0 {
      InChronicle(groups[1..], i - 1, m);
    }
  }

  lemma {:induction false} LongestBounds(messages: seq<string>, m: string)
    requires m in messages
    ensures |m| <= Longest(messages)
    decreases |messages|
  {
    if messages[0] != m {
      assert messages == [messages[0]] + messages[1..];
      LongestBounds(messages[1..], m);
    }
  }
}
