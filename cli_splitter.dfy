/** The CLI capture splitter: a terminal transcript of several `show` commands is cut at
    every prompt (`\n<host>#`) into one segment per command, and each segment with output
    becomes a `command -> output` entry; log files are picked by extension and named after
    the device. */
module CliSplitter {
  import opened Wrappers
  import opened Text

  // ---------------------------------------------------------------------------------------
  // Picking the log files (lines 5-16)
  // ---------------------------------------------------------------------------------------

  /** Line 12: the extension with a leading dot, added when missing. */
  function Suffix(ext: string): (r: string)
    requires ext != []
    ensures r != [] && r[0] == '.' && EndsWith(r, ext)
    ensures ext[0] == '.' ==> r == ext
    ensures ext[0] != '.' ==> r == "." + ext
  {
    if ext[0] == '.' then ext else "." + ext
  }

  /** `[file for file in files if file.endswith(suffix)]` */
  function KeepEndingWith(files: seq<string>, suffix: string): seq<string>
    decreases |files|
  {
    if files == [] then []
    else
      var last := files[|files| - 1];
      KeepEndingWith(files[..|files| - 1], suffix) + (if EndsWith(last, suffix) then [last] else [])
  }

  /** Lines 11-16 over an already walked list of paths: with an extension, only the paths
      ending with it (after its dot); with `None` or an empty extension, every path. */
  function FilesWithExtension(files: seq<string>, onlyExt: Option<string>): seq<string>
  {
    if onlyExt.None? || onlyExt.value == [] then files
    else KeepEndingWith(files, Suffix(onlyExt.value))
  }

  /** A path is kept exactly when it ends with the suffix; nothing is added. */
  lemma {:induction false} KeepEndingWithMembers(files: seq<string>, suffix: string)
    ensures forall f :: f in KeepEndingWith(files, suffix) <==> f in files && EndsWith(f, suffix)
    ensures |KeepEndingWith(files, suffix)| <= |files|
    decreases |files|
  {
    if files != [] {
      var init := files[..|files| - 1];
      KeepEndingWithMembers(init, suffix);
      assert files == init + [files[|files| - 1]];
    }
  }

  /** Filtering distributes over concatenation, so kept paths stay in input order. */
  lemma {:induction false} KeepEndingWithAppend(a: seq<string>, b: seq<string>, suffix: string)
    ensures KeepEndingWith(a + b, suffix) == KeepEndingWith(a, suffix) + KeepEndingWith(b, suffix)
    decreases |b|
  {
    if b == [] {
      assert a + b == a;
    } else {
      var init := b[..|b| - 1];
      assert (a + b)[..|a + b| - 1] == a + init;
      KeepEndingWithAppend(a, init, suffix);
    }
  }

  /** With `None` or `""` the list comes back unchanged; with an extension, a path comes
      back exactly when it ends with the dotted extension. */
  lemma FilesWithExtensionSpec(files: seq<string>, onlyExt: Option<string>)
    ensures onlyExt.None? || onlyExt == Some("") ==> FilesWithExtension(files, onlyExt) == files
    ensures onlyExt.Some? && onlyExt.value != [] ==>
      forall f :: f in FilesWithExtension(files, onlyExt)
        <==> f in files && EndsWith(f, Suffix(onlyExt.value))
  {
    if onlyExt.Some? && onlyExt.value != [] {
      KeepEndingWithMembers(files, Suffix(onlyExt.value));
    }
  }

  /** Line 60: `os.path.basename(path)`, the text after the last `/`. */
  function Basename(path: string): (r: string)
    ensures '/' !in r
  {
    var parts := Split(path, '/');
    parts[|parts| - 1]
  }

  /** Line 60: the base name less its last four characters (`".log"`); Python's slice gives
      `""` when the name is shorter. */
  function Hostname(path: string): (r: string)
    ensures '/' !in r
  {
    var b := Basename(path);
    if |b| < 4 then "" else b[..|b| - 4]
  }

  /** The base name is a suffix of the path, and the separator precedes it unless it is the
      whole path. */
  lemma {:induction false} BasenameSuffix(path: string)
    ensures EndsWith(path, Basename(path))
    ensures |Basename(path)| < |path| ==> path[|path| - |Basename(path)| - 1] == '/'
    decreases |path|
  {
    match IndexOf(path, '/')
      case None =>
      case Some(i) =>
        var rest := path[i + 1..];
        BasenameSuffix(rest);
        assert Basename(path) == Basename(rest);
  }

  /** For `<dir>/<host>.log` the host name is `<host>`. */
  lemma HostnameOfLog(path: string)
    requires EndsWith(Basename(path), ".log")
    ensures Hostname(path) + ".log" == Basename(path)
  {
    var b := Basename(path);
    assert b == b[..|b| - 4] + b[|b| - 4..];
  }

  // ---------------------------------------------------------------------------------------
  // The prompt separator (line 21)
  // ---------------------------------------------------------------------------------------

  /** The last position in `lo .. hi - 1` holding `c`. */
  function LastIndexIn(s: string, c: char, lo: nat, hi: nat): (r: Option<nat>)
    requires lo <= hi <= |s|
    ensures r.Some? ==>
      lo <= r.value < hi && s[r.value] == c && forall k :: r.value < k < hi ==> s[k] != c
    ensures r.None? ==> forall k :: lo <= k < hi ==> s[k] != c
    decreases hi - lo
  {
    if hi == lo then None
    else if s[hi - 1] == c then Some(hi - 1)
    else LastIndexIn(s, c, lo, hi - 1)
  }

  /** `\S+#` matched at `p`: the whitespace-free run starting there, cut after its LAST `#`
      (the `+` is greedy and backtracks only to the nearest `#`); at least one character
      precedes that `#`. The end of the match, if any. */
  function PromptEnd(s: string, p: nat): (r: Option<nat>)
    requires p <= |s|
    ensures r.Some? ==>
      p + 2 <= r.value <= RunEnd(s, p) && s[r.value - 1] == '#'
      && forall k :: r.value <= k < RunEnd(s, p) ==> s[k] != '#'
    ensures r.None? ==> forall k :: p + 1 <= k < RunEnd(s, p) ==> s[k] != '#'
  {
    var e := RunEnd(s, p);
    if e <= p + 1 then None
    else
      var q := LastIndexIn(s, '#', p + 1, e);
      if q.None? then None else Some(q.value + 1)
  }

  /** `re.match("^\S+#", s)` */
  predicate StartsWithPrompt(s: string) {
    PromptEnd(s, 0).Some?
  }

  /** The separator `\n\S+#` matched at `p`: a line break followed by a prompt. */
  function SeparatorEnd(s: string, p: nat): (r: Option<nat>)
    requires p <= |s|
    ensures r.Some? <==> p < |s| && s[p] == '\n' && PromptEnd(s, p + 1).Some?
    ensures r.Some? ==> p + 3 <= r.value <= |s| && IsSeparator(s[p..r.value])
  {
    if p < |s| && s[p] == '\n' then
      var q := PromptEnd(s, p + 1);
      if q.None? then None
      else
        assert NoSpace(s[p..q.value][1..]) by {
          assert forall k :: 0 <= k < q.value - p - 1 ==> s[p..q.value][1..][k] == s[p + 1 + k];
        }
        q
    else None
  }

  /** What `\n\S+#` matches: a line break, then at least one non-space character, ending
      in `#`. */
  predicate IsSeparator(t: string) {
    |t| >= 3 && t[0] == '\n' && t[|t| - 1] == '#' && NoSpace(t[1..])
  }

  /** The match is the longest separator starting at `p`, and `None` means that no separator
      starts there. */
  lemma SeparatorEndLongest(s: string, p: nat)
    requires p <= |s|
    ensures SeparatorEnd(s, p).None? ==> forall e :: p < e <= |s| ==> !IsSeparator(s[p..e])
    ensures SeparatorEnd(s, p).Some? ==>
      forall e :: SeparatorEnd(s, p).value < e <= |s| ==> !IsSeparator(s[p..e])
  {
    forall e | p < e <= |s| && IsSeparator(s[p..e])
      ensures SeparatorEnd(s, p).Some? && e <= SeparatorEnd(s, p).value
    {
      SeparatorRun(s, p, e);
    }
  }

  /** A separator `s[p..e]` lies inside the whitespace-free run after the line break, and its
      `#` is one the prompt match can end at. */
  lemma SeparatorRun(s: string, p: nat, e: nat)
    requires p < e <= |s| && IsSeparator(s[p..e])
    ensures s[p] == '\n' && p + 3 <= e <= RunEnd(s, p + 1) && s[e - 1] == '#'
  {
    var t := s[p..e];
    assert t[0] == s[p] && t[|t| - 1] == s[e - 1];
    forall k | p + 1 <= k < e
      ensures !IsSpace(s[k])
    {
      assert t[1..][k - p - 1] == s[k];
    }
    var r := RunEnd(s, p + 1);
    assert r >= e;
  }

  /** `re.split` scanning from `p`, the current piece having begun at `start`: the leftmost
      separator ends the piece, and scanning resumes after the separator. */
  function Pieces(s: string, start: nat, p: nat): (r: seq<string>)
    requires start <= p <= |s|
    ensures |r| >= 1
    decreases |s| - p
  {
    if p == |s| then [s[start..]]
    else match SeparatorEnd(s, p)
      case None => Pieces(s, start, p + 1)
      case Some(e) => [s[start..p]] + Pieces(s, e, e)
  }

  /** `re.split("\n\S+#", s)` */
  function SplitAtPrompts(s: string): seq<string>
  {
    Pieces(s, 0, 0)
  }

  /** The separators `re.split` removes, in the order it finds them. */
  function Separators(s: string, start: nat, p: nat): (r: seq<string>)
    requires start <= p <= |s|
    ensures |r| == |Pieces(s, start, p)| - 1
    ensures forall i :: 0 <= i < |r| ==> IsSeparator(r[i])
    decreases |s| - p
  {
    if p == |s| then []
    else match SeparatorEnd(s, p)
      case None => Separators(s, start, p + 1)
      case Some(e) => [s[p..e]] + Separators(s, e, e)
  }

  /** Pieces with separators between them. */
  function Rejoin(pieces: seq<string>, separators: seq<string>): string
    requires |pieces| == |separators| + 1
    decreases |separators|
  {
    if separators == [] then pieces[0]
    else pieces[0] + separators[0] + Rejoin(pieces[1..], separators[1..])
  }

  lemma RejoinCons(piece: string, pieces: seq<string>, separator: string, separators: seq<string>)
    requires |pieces| == |separators| + 1
    ensures Rejoin([piece] + pieces, [separator] + separators)
      == piece + separator + Rejoin(pieces, separators)
  {
    assert ([piece] + pieces)[1..] == pieces;
    assert ([separator] + separators)[1..] == separators;
  }

  /** Nothing but the separators is lost: putting them back between the pieces gives the
      text. */
  lemma {:induction false} PiecesRejoin(s: string, start: nat, p: nat)
    requires start <= p <= |s|
    ensures Rejoin(Pieces(s, start, p), Separators(s, start, p)) == s[start..]
    decreases |s| - p
  {
    if p < |s| {
      match SeparatorEnd(s, p)
        case None => PiecesRejoin(s, start, p + 1);
        case Some(e) =>
          var ps, ss := Pieces(s, e, e), Separators(s, e, e);
          assert Pieces(s, start, p) == [s[start..p]] + ps;
          assert Separators(s, start, p) == [s[p..e]] + ss;
          PiecesRejoin(s, e, e);
          RejoinCons(s[start..p], ps, s[p..e], ss);
          SliceSplit(s, start, p);
          SliceSplit(s, p, e);
    }
  }

  /** The first position at or after `p` where a separator begins, or the end of the text. */
  function NextSeparator(s: string, p: nat): (c: nat)
    requires p <= |s|
    ensures p <= c <= |s|
    ensures forall q :: p <= q < c ==> SeparatorEnd(s, q).None?
    ensures c < |s| ==> SeparatorEnd(s, c).Some?
    decreases |s| - p
  {
    if p == |s| || SeparatorEnd(s, p).Some? then p else NextSeparator(s, p + 1)
  }

  /** `re.split` cuts at the leftmost separator: the piece begun at `start` runs to the next
      separator at or after `p`, that separator is removed, and the text after it is split
      again; without a further separator the piece runs to the end of the text. */
  lemma {:induction false} PiecesFirstCut(s: string, start: nat, p: nat)
    requires start <= p <= |s|
    ensures var c := NextSeparator(s, p);
      if c == |s| then Pieces(s, start, p) == [s[start..]] && Separators(s, start, p) == []
      else
        var e := SeparatorEnd(s, c).value;
        Pieces(s, start, p) == [s[start..c]] + Pieces(s, e, e)
        && Separators(s, start, p) == [s[c..e]] + Separators(s, e, e)
    decreases |s| - p
  {
    if p < |s| && SeparatorEnd(s, p).None? {
      PiecesFirstCut(s, start, p + 1);
    }
  }

  /** Text in which no separator begins at or after `p` is not cut there. */
  lemma PiecesWithoutSeparator(s: string, start: nat, p: nat)
    requires start <= p <= |s|
    requires forall q :: p <= q < |s| ==> SeparatorEnd(s, q).None?
    ensures Pieces(s, start, p) == [s[start..]]
  {
    PiecesFirstCut(s, start, p);
  }

  lemma SliceSplit(s: string, i: nat, j: nat)
    requires i <= j <= |s|
    ensures s[i..] == s[i..j] + s[j..]
  {
  }

  /** Text without `#` holds no separator and is one piece. */
  lemma {:induction false} PiecesWithoutHash(s: string, start: nat, p: nat)
    requires start <= p <= |s| && '#' !in s
    ensures Pieces(s, start, p) == [s[start..]]
    decreases |s| - p
  {
    if p < |s| {
      assert RunEnd(s, p + 1) <= |s|;
      PiecesWithoutHash(s, start, p + 1);
    }
  }

  // ---------------------------------------------------------------------------------------
  // From segments to the command map (lines 19-42)
  // ---------------------------------------------------------------------------------------

  lemma SplitHasSeparator(s: string, c: char)
    requires c in s
    ensures |Split(s, c)| >= 2
  {
  }

  /** Lines 35-38: behind a prompt the key is the text between the first and the second `#`;
      any other first line is the key as it stands. */
  function Key(line: string): string
  {
    if StartsWithPrompt(line) then
      assert '#' in line;
      SplitHasSeparator(line, '#');
      Split(line, '#')[1]
    else line
  }

  /** Lines 30-40: a segment with at least two lines gives its key and the remaining lines
      joined again; a segment of one line or none gives nothing. */
  function Entry(segment: string): Option<(string, string)>
  {
    var lines := SplitLines(segment);
    if |lines| > 1 then Some((Key(lines[0]), Join(lines[1..], "\n"))) else None
  }

  /** The entry of each segment, in order. */
  function Entries(segments: seq<string>): (r: seq<Option<(string, string)>>)
    ensures |r| == |segments|
    decreases |segments|
  {
    if segments == [] then []
    else Entries(segments[..|segments| - 1]) + [Entry(segments[|segments| - 1])]
  }

  lemma {:induction false} EntriesAt(segments: seq<string>, i: nat)
    requires i < |segments|
    ensures Entries(segments)[i] == Entry(segments[i])
    decreases |segments|
  {
    if i < |segments| - 1 {
      var init := segments[..|segments| - 1];
      assert init[i] == segments[i];
      EntriesAt(init, i);
    }
  }

  /** Line 40 for every entry in order; a later entry for the same key overwrites. */
  function Store(entries: seq<Option<(string, string)>>): map<string, string>
    decreases |entries|
  {
    if entries == [] then map[]
    else
      var before := Store(entries[..|entries| - 1]);
      var entry := entries[|entries| - 1];
      if entry.None? then before else before[entry.value.0 := entry.value.1]
  }

  function Commands(segments: seq<string>): map<string, string>
  {
    Store(Entries(segments))
  }

  /** Lines 21-27: the pieces, less a first piece that does not begin with a prompt. */
  function Segments(rawData: string): seq<string>
  {
    var pieces := SplitAtPrompts(rawData);
    if !StartsWithPrompt(pieces[0]) then pieces[1..] else pieces
  }

  /** Lines 19-42 as a value. */
  function CommandMap(rawData: string): map<string, string>
  {
    Commands(Segments(rawData))
  }

  /** Lines 19-42: split at the prompts, drop a first piece without a prompt, and store each
      segment's output under its command. */
  method SplitConfigFile(rawData: string) returns (commands: map<string, string>)
    ensures commands == CommandMap(rawData)
  {
    var splitConfig := SplitAtPrompts(rawData);
    // The guard of line 24 always holds: `re.split` returns at least one piece.
    if !StartsWithPrompt(splitConfig[0]) {
      splitConfig := splitConfig[1..];
    }
    commands := StoreSegments(splitConfig);
  }

  /** Lines 29-40: the loop over the segments. */
  method StoreSegments(splitConfig: seq<string>) returns (commands: map<string, string>)
    ensures commands == Commands(splitConfig)
  {
    ghost var entries := Entries(splitConfig);
    commands := map[];
    var i := 0;
    while i < |splitConfig|
      invariant 0 <= i <= |splitConfig|
      invariant commands == Store(entries[..i])
    {
      StoreSnoc(entries, i);
      EntriesAt(splitConfig, i);
      var lines := SplitLines(splitConfig[i]);
      if |lines| > 1 {
        var cmd;
        if StartsWithPrompt(lines[0]) {
          SplitHasSeparator(lines[0], '#');
          cmd := Split(lines[0], '#')[1];
        } else {
          cmd := lines[0];
        }
        commands := commands[cmd := Join(lines[1..], "\n")];
      }
      i := i + 1;
    }
    assert entries[..i] == entries;
  }

  lemma StoreSnoc(entries: seq<Option<(string, string)>>, i: nat)
    requires i < |entries|
    ensures Store(entries[..i + 1]) ==
      if entries[i].None? then Store(entries[..i])
      else Store(entries[..i])[entries[i].value.0 := entries[i].value.1]
  {
    assert entries[..i + 1][..i] == entries[..i];
  }

  /** A key is in the map exactly when some entry has it. */
  lemma {:induction false} StoreKeys(entries: seq<Option<(string, string)>>)
    ensures forall k :: k in Store(entries) <==>
      exists i :: 0 <= i < |entries| && entries[i].Some? && entries[i].value.0 == k
    decreases |entries|
  {
    if entries != [] {
      var init := entries[..|entries| - 1];
      StoreKeys(init);
      assert forall i :: 0 <= i < |init| ==> init[i] == entries[i];
    }
  }

  /** A key maps to the value of the last entry with that key. */
  lemma {:induction false} StoreLastWins(entries: seq<Option<(string, string)>>, i: nat)
    requires i < |entries| && entries[i].Some?
    requires forall j :: i < j < |entries| ==> entries[j].None? || entries[j].value.0 != entries[i].value.0
    ensures entries[i].value.0 in Store(entries)
    ensures Store(entries)[entries[i].value.0] == entries[i].value.1
    decreases |entries|
  {
    if i < |entries| - 1 {
      var init := entries[..|entries| - 1];
      assert init[i] == entries[i];
      StoreLastWins(init, i);
    }
  }

  /** A key is in the map exactly when some segment has that entry. */
  lemma CommandsKeys(segments: seq<string>)
    ensures forall k :: k in Commands(segments) <==>
      exists i :: 0 <= i < |segments| && Entry(segments[i]).Some? && Entry(segments[i]).value.0 == k
  {
    StoreKeys(Entries(segments));
    forall i | 0 <= i < |segments| ensures Entries(segments)[i] == Entry(segments[i]) {
      EntriesAt(segments, i);
    }
  }

  /** Last write wins: a key maps to the output of the last segment with that command. */
  lemma CommandsLastWins(segments: seq<string>, i: nat)
    requires i < |segments| && Entry(segments[i]).Some?
    requires forall j :: i < j < |segments| ==>
      Entry(segments[j]).None? || Entry(segments[j]).value.0 != Entry(segments[i]).value.0
    ensures Entry(segments[i]).value.0 in Commands(segments)
    ensures Commands(segments)[Entry(segments[i]).value.0] == Entry(segments[i]).value.1
  {
    forall j | 0 <= j < |segments| ensures Entries(segments)[j] == Entry(segments[j]) {
      EntriesAt(segments, j);
    }
    StoreLastWins(Entries(segments), i);
  }

  /** A segment of fewer than two lines never contributes an entry. */
  lemma ShortSegmentIgnored(segments: seq<string>, s: string)
    requires |SplitLines(s)| < 2
    ensures Commands(segments + [s]) == Commands(segments)
  {
    assert (segments + [s])[..|segments|] == segments;
    assert Entries(segments + [s]) == Entries(segments) + [None];
    assert (Entries(segments) + [None])[..|segments|] == Entries(segments);
  }

  /** The output stored for a segment is its text after the first line break, less at most
      one final line break. */
  lemma EntryValue(segment: string)
    requires Entry(segment).Some?
    ensures var lines := SplitLines(segment);
      segment == lines[0] + "\n" + Entry(segment).value.1
        + (if segment[|segment| - 1] == '\n' then "\n" else "")
  {
    var lines := SplitLines(segment);
    SplitLinesJoin(segment);
    assert lines == [lines[0]] + lines[1..];
    JoinCons(lines[0], lines[1..], "\n");
  }

  /** Behind a prompt, the key is the text after the first `#` up to the next `#` or the end
      of the line. */
  lemma KeyAfterPrompt(line: string)
    requires StartsWithPrompt(line)
    ensures var i := IndexOf(line, '#').value;
      var k := Key(line);
      '#' !in k && i + 1 + |k| <= |line| && line[i + 1..i + 1 + |k|] == k
      && (i + 1 + |k| == |line| || line[i + 1 + |k|] == '#')
  {
    var i := IndexOf(line, '#').value;
    var rest := line[i + 1..];
    assert Split(line, '#') == [line[..i]] + Split(rest, '#');
    SplitHead(rest, '#');
  }

  /** A transcript that does not start with a prompt and holds no separator anywhere gives
      an empty map: it is one piece, and that piece is dropped. */
  lemma NoPromptNoCommands(rawData: string)
    requires !StartsWithPrompt(rawData)
    requires forall q, e :: 0 <= q < e <= |rawData| ==> !IsSeparator(rawData[q..e])
    ensures CommandMap(rawData) == map[]
  {
    forall q | 0 <= q < |rawData|
      ensures SeparatorEnd(rawData, q).None?
    {
    }
    PiecesWithoutSeparator(rawData, 0, 0);
    assert rawData[0..] == rawData;
  }

  /** A transcript without any `#`, the empty one among them, has no prompt and gives an
      empty map. */
  lemma NoHashNoCommands(rawData: string)
    requires '#' !in rawData
    ensures CommandMap(rawData) == map[]
  {
    assert !StartsWithPrompt(rawData) by {
      if |rawData| > 0 { assert RunEnd(rawData, 0) <= |rawData|; }
    }
    forall q, e | 0 <= q < e <= |rawData|
      ensures !IsSeparator(rawData[q..e])
    {
      var t := rawData[q..e];
      assert t[|t| - 1] == rawData[e - 1];
    }
    NoPromptNoCommands(rawData);
  }

  /** A `#` that is not behind a line-break-and-prompt leaves the text one piece (for
      example, `"a #b"`). */
  lemma HashInsideLineNoCommands()
    ensures CommandMap("a #b") == map[]
  {
    var s := "a #b";
    forall q, e | 0 <= q < e <= |s|
      ensures !IsSeparator(s[q..e])
    {
      assert s[q..e][0] == s[q];
    }
    assert !StartsWithPrompt(s) by {
      assert IsSpace(s[1]);
      RunEndPrefix(s, 1);
    }
    NoPromptNoCommands(s);
  }
}
