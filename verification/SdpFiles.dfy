/**
 The replacement of credentials in lib/sdp_util.c and lib/sdp_ctrl_client.c, over a map
 from paths to contents. How opening and writing go is a parameter; renaming and removing
 work, except that an old backup may turn out not to be removable.
 */
module SdpFiles {
  import opened Common

  type Path = Bytes
  type Files = map<Path, Bytes>

  // "_previous"
  const POSTFIX: Bytes := [0x5f, 0x70, 0x72, 0x65, 0x76, 0x69, 0x6f, 0x75, 0x73]

  const MAX_MSG_LEN := 65536
  const MAX_LINE_LEN := 1024
  const MAX_B64_KEY_LEN := 180
  const NEWLINE: bv8 := 0x0a

  function Backup(p: Path): (b: Path)
    ensures b != p
  {
    p + POSTFIX
  }

  lemma BackupInjective(p: Path, q: Path)
    requires Backup(p) == Backup(q)
    ensures p == q
  {
    assert Backup(p)[..|p|] == p && Backup(q)[..|q|] == q;
  }

  // How a new file is written: whether it opens, how much is written and whether an error is seen.
  datatype Saving = Saving(opens: bool, written: nat, error: bool)

  // How a file is copied: whether both files open and how much of each line is written.
  datatype Copying = Copying(canRead: bool, canWrite: bool, written: nat -> nat)

  function First(s: Bytes, n: nat): (t: Bytes)
    ensures |t| <= |s| && (t == s <==> n >= |s|)
  {
    if n < |s| then s[..n] else s
  }

  // ----- replacing keys line by line -----

  // fgets: up to a newline, or as much as fits the line buffer.
  function LineLength(s: Bytes): (n: nat)
    requires s != []
    ensures 0 < n <= |s| && n < MAX_LINE_LEN
  {
    LineFrom(s, 0)
  }

  function LineFrom(s: Bytes, n: nat): (m: nat)
    requires n < |s| && n < MAX_LINE_LEN - 1
    ensures n < m <= |s| && m < MAX_LINE_LEN
    decreases |s| - n
  {
    if s[n] == NEWLINE || n + 1 == |s| || n + 1 == MAX_LINE_LEN - 1 then n + 1 else LineFrom(s, n + 1)
  }

  predicate OccursAt(s: Bytes, key: Bytes, i: nat) { i + |key| <= |s| && s[i..i + |key|] == key }

  // strstr: where a key first occurs.
  function Occurrence(s: Bytes, key: Bytes): (r: Option<nat>)
    ensures r.Some? ==> OccursAt(s, key, r.value) && forall j: nat | j < r.value :: !OccursAt(s, key, j)
    ensures r.None? ==> forall j: nat :: !OccursAt(s, key, j)
  {
    OccurrenceFrom(s, key, 0)
  }

  function OccurrenceFrom(s: Bytes, key: Bytes, i: nat): (r: Option<nat>)
    requires i <= |s| + 1 && forall j: nat | j < i :: !OccursAt(s, key, j)
    ensures r.Some? ==> OccursAt(s, key, r.value) && forall j: nat | j < r.value :: !OccursAt(s, key, j)
    ensures r.None? ==> forall j: nat :: !OccursAt(s, key, j)
    decreases |s| + 1 - i
  {
    if i + |key| > |s| then None
    else if OccursAt(s, key, i) then Some(i)
    else OccurrenceFrom(s, key, i + 1)
  }

  datatype Keys = Keys(old1: Bytes, new1: Bytes, old2: Bytes, new2: Bytes)

  // What a line turns into and which key was found; None if the new key does not fit.
  datatype Line = Line(text: Bytes, found1: nat, found2: nat)

  function Substitute(line: Bytes, at: nat, key: Bytes): Option<Bytes>
    requires at <= |line|
  {
    if MAX_LINE_LEN - at < |key| + 2 then None else Some(line[..at] + key + [NEWLINE])
  }

  function NewLine(line: Bytes, k: Keys): Option<Line> {
    match Occurrence(line, k.old1)
    case Some(i) =>
      (match Substitute(line, i, k.new1)
       case None => None
       case Some(t) => Some(Line(t, 1, 0)))
    case None =>
      match Occurrence(line, k.old2)
      case Some(i) =>
        (match Substitute(line, i, k.new2)
         case None => None
         case Some(t) => Some(Line(t, 0, 1)))
      case None => Some(Line(line, 0, 0))
  }

  // The whole file with the keys replaced and how often each was found.
  function Rewritten(s: Bytes, k: Keys): Option<Line>
    decreases |s|
  {
    if s == [] then Some(Line([], 0, 0)) else
    var n := LineLength(s);
    match NewLine(s[..n], k)
    case None => None
    case Some(l) =>
      match Rewritten(s[n..], k)
      case None => None
      case Some(rest) => Some(Line(l.text + rest.text, l.found1 + rest.found1, l.found2 + rest.found2))
  }

  // ----- the rewriting line by line -----

  // A text cut into lines: up to and including a newline, or 1023 characters, or the end.
  function Lines(s: Bytes): (ls: seq<Bytes>)
    decreases |s|
  {
    if s == [] then [] else var n := LineLength(s); [s[..n]] + Lines(s[n..])
  }

  predicate IsLine(l: Bytes, last: bool) {
    && 1 <= |l| <= 1023 && (forall i | 0 <= i < |l| - 1 :: l[i] != NEWLINE)
    && (l[|l| - 1] == NEWLINE || |l| == 1023 || last)
  }

  lemma {:induction false} LinesExactly(s: Bytes)
    ensures Concat(Lines(s)) == s
    ensures forall i | 0 <= i < |Lines(s)| :: IsLine(Lines(s)[i], i == |Lines(s)| - 1)
    decreases |s|
  {
    hide LineLength;
    if s != [] {
      var n := LineLength(s);
      LinesExactly(s[n..]);
      ConcatFirst(s[..n], Lines(s[n..]));
      assert s == s[..n] + s[n..];
      LineLengthIs(s);
      assert n == |s| ==> Lines(s[n..]) == [];
    }
  }

  lemma LineLengthIs(s: Bytes)
    requires s != []
    ensures IsLine(s[..LineLength(s)], LineLength(s) == |s|)
  {
    LineFromIs(s, 0);
  }

  lemma {:induction false} LineFromIs(s: Bytes, n: nat)
    requires n < |s| && n < MAX_LINE_LEN - 1 && forall i | 0 <= i < n :: s[i] != NEWLINE
    ensures IsLine(s[..LineFrom(s, n)], LineFrom(s, n) == |s|)
    decreases |s| - n
  {
    if !(s[n] == NEWLINE || n + 1 == |s| || n + 1 == MAX_LINE_LEN - 1) {
      LineFromIs(s, n + 1);
    }
  }

  ghost predicate Contains(line: Bytes, key: Bytes) { exists i: nat :: OccursAt(line, key, i) }

  predicate FirstAt(line: Bytes, key: Bytes, i: nat) {
    OccursAt(line, key, i) && forall j: nat | j < i :: !OccursAt(line, key, j)
  }

  // The text before the first occurrence of a key, a new key and a newline.
  ghost predicate Becomes(line: Bytes, now: Bytes, key: Bytes, next: Bytes) {
    exists i: nat :: FirstAt(line, key, i) && now == line[..i] + next + [NEWLINE]
  }

  // The encryption key is replaced in every line that has it, the HMAC key in every other line that
  // has that, and nothing else changes.
  ghost predicate LineReplaced(line: Bytes, now: Bytes, enc: Bytes, newEnc: Bytes, hmac: Bytes, newHmac: Bytes) {
    if Contains(line, enc) then Becomes(line, now, enc, newEnc)
    else if Contains(line, hmac) then Becomes(line, now, hmac, newHmac)
    else now == line
  }

  ghost predicate LinesReplaced(was: Bytes, now: Bytes, enc: Bytes, newEnc: Bytes, hmac: Bytes, newHmac: Bytes) {
    exists ls: seq<Bytes> ::
      && now == Concat(ls) && |ls| == |Lines(was)|
      && forall i | 0 <= i < |ls| :: LineReplaced(Lines(was)[i], ls[i], enc, newEnc, hmac, newHmac)
  }

  lemma OccurrenceMeans(line: Bytes, key: Bytes)
    ensures Occurrence(line, key).Some? <==> Contains(line, key)
    ensures Occurrence(line, key).Some? ==> FirstAt(line, key, Occurrence(line, key).value)
  {
    hide OccurrenceFrom;
  }

  lemma NewLineIs(line: Bytes, k: Keys)
    requires NewLine(line, k).Some?
    ensures LineReplaced(line, NewLine(line, k).value.text, k.old1, k.new1, k.old2, k.new2)
  {
    hide OccurrenceFrom, Occurrence, Contains, OccursAt;
    OccurrenceMeans(line, k.old1);
    OccurrenceMeans(line, k.old2);
  }

  // The rewritten file is the old one with every line replaced as it should be.
  lemma {:induction false} RewrittenLines(s: Bytes, k: Keys) returns (ls: seq<Bytes>)
    requires Rewritten(s, k).Some?
    ensures Rewritten(s, k).value.text == Concat(ls) && |ls| == |Lines(s)|
    ensures forall i | 0 <= i < |ls| :: LineReplaced(Lines(s)[i], ls[i], k.old1, k.new1, k.old2, k.new2)
    decreases |s|
  {
    hide NewLine, LineLength, LineReplaced;
    ls := [];
    if s != [] {
      var n := LineLength(s);
      var rest := RewrittenLines(s[n..], k);
      var l := NewLine(s[..n], k).value.text;
      NewLineIs(s[..n], k);
      ConcatFirst(l, rest);
      ls := [l] + rest;
    }
  }

  predicate KeysFit(k: Keys) { |k.new1| <= MAX_B64_KEY_LEN && |k.new2| <= MAX_B64_KEY_LEN }

  // What replacing the keys of a file makes of it, if it can be done.
  function Replaced(s: Bytes, k: Keys): Option<Bytes> {
    match Rewritten(s, k)
    case None => None
    case Some(l) => if l.found1 < 1 || l.found2 < 1 then None else Some(l.text)
  }

  // The new key has room where the old one is.
  ghost predicate Fits(line: Bytes, key: Bytes, next: Bytes) {
    forall i: nat | FirstAt(line, key, i) :: i + |next| + 2 <= 1024
  }

  ghost predicate LineFits(line: Bytes, k: Keys) {
    if Contains(line, k.old1) then Fits(line, k.old1, k.new1) else Fits(line, k.old2, k.new2)
  }

  lemma NewLineExactly(line: Bytes, k: Keys)
    ensures NewLine(line, k).Some? <==> LineFits(line, k)
    ensures NewLine(line, k).Some? ==>
              var l := NewLine(line, k).value;
              && (l.found1 > 0 <==> Contains(line, k.old1))
              && (l.found2 > 0 <==> !Contains(line, k.old1) && Contains(line, k.old2))
  {
    hide OccurrenceFrom, Occurrence, OccursAt;
    OccurrenceMeans(line, k.old1);
    OccurrenceMeans(line, k.old2);
    FirstIsUnique(line, k.old1);
    FirstIsUnique(line, k.old2);
  }

  lemma FirstIsUnique(line: Bytes, key: Bytes)
    ensures forall i: nat, j: nat | FirstAt(line, key, i) && FirstAt(line, key, j) :: i == j
    ensures forall i: nat | FirstAt(line, key, i) :: Contains(line, key)
  {
  }

  ghost predicate SomeLine1(ls: seq<Bytes>, k: Keys) { exists i :: 0 <= i < |ls| && Contains(ls[i], k.old1) }
  ghost predicate SomeLine2(ls: seq<Bytes>, k: Keys) {
    exists i :: 0 <= i < |ls| && !Contains(ls[i], k.old1) && Contains(ls[i], k.old2)
  }

  lemma SomeLineFirst(l: Bytes, rest: seq<Bytes>, k: Keys)
    ensures SomeLine1([l] + rest, k) <==> Contains(l, k.old1) || SomeLine1(rest, k)
    ensures SomeLine2([l] + rest, k) <==> (!Contains(l, k.old1) && Contains(l, k.old2)) || SomeLine2(rest, k)
  {
    hide Contains;
    var all := [l] + rest;
    assert all[0] == l && forall i | 1 <= i < |all| :: all[i] == rest[i - 1];
    if SomeLine1(rest, k) {
      var i :| 0 <= i < |rest| && Contains(rest[i], k.old1);
      assert Contains(all[i + 1], k.old1);
    }
    if SomeLine2(rest, k) {
      var i :| 0 <= i < |rest| && !Contains(rest[i], k.old1) && Contains(rest[i], k.old2);
      assert !Contains(all[i + 1], k.old1) && Contains(all[i + 1], k.old2);
    }
  }

  ghost predicate AllFit(ls: seq<Bytes>, k: Keys) { forall i | 0 <= i < |ls| :: LineFits(ls[i], k) }

  lemma AllFitFirst(l: Bytes, rest: seq<Bytes>, k: Keys)
    ensures AllFit([l] + rest, k) <==> LineFits(l, k) && AllFit(rest, k)
  {
    hide LineFits;
    var all := [l] + rest;
    assert all[0] == l && forall i | 0 <= i < |rest| :: all[i + 1] == rest[i];
    if AllFit(all, k) {
      forall i | 0 <= i < |rest| ensures LineFits(rest[i], k) {
        assert LineFits(all[i + 1], k);
      }
    }
  }

  lemma {:induction false} RewrittenExactly(s: Bytes, k: Keys)
    ensures Rewritten(s, k).Some? <==> AllFit(Lines(s), k)
    ensures Rewritten(s, k).Some? ==>
              && (Rewritten(s, k).value.found1 > 0 <==> SomeLine1(Lines(s), k))
              && (Rewritten(s, k).value.found2 > 0 <==> SomeLine2(Lines(s), k))
    decreases |s|
  {
    if s == [] {
    } else {
      hide NewLine, LineLength, LineFits, Contains, AllFit, SomeLine1, SomeLine2;
      var n := LineLength(s);
      RewrittenExactly(s[n..], k);
      NewLineExactly(s[..n], k);
      AllFitFirst(s[..n], Lines(s[n..]), k);
      SomeLineFirst(s[..n], Lines(s[n..]), k);
    }
  }

  // A replacement can be done exactly when every new key has room, the encryption key is in some
  // line and the HMAC key in some line without it.
  lemma ReplacedExactly(s: Bytes, k: Keys)
    ensures Replaced(s, k).Some? <==>
              AllFit(Lines(s), k) && SomeLine1(Lines(s), k) && SomeLine2(Lines(s), k)
  {
    hide Rewritten, Lines, AllFit, SomeLine1, SomeLine2;
    RewrittenExactly(s, k);
  }

  // A file in which neither old key occurs is copied as it is, and that counts as a failure.
  lemma {:induction false} Untouched(s: Bytes, k: Keys)
    requires Occurrence(s, k.old1).None? && Occurrence(s, k.old2).None?
    ensures Rewritten(s, k) == Some(Line(s, 0, 0)) && Replaced(s, k).None?
    decreases |s|
  {
    hide OccurrenceFrom, LineFrom;
    if s != [] {
      var n := LineLength(s);
      PartsHaveNone(s, n, k.old1);
      PartsHaveNone(s, n, k.old2);
      Untouched(s[n..], k);
      assert s == s[..n] + s[n..];
    }
  }

  lemma PartsHaveNone(s: Bytes, n: nat, key: Bytes)
    requires n <= |s| && Occurrence(s, key).None?
    ensures Occurrence(s[..n], key).None? && Occurrence(s[n..], key).None?
  {
    hide OccurrenceFrom;
    forall j: nat ensures !OccursAt(s[..n], key, j) && !OccursAt(s[n..], key, j) {
      assert !OccursAt(s, key, j) && !OccursAt(s, key, n + j);
      if j + |key| <= n {
        assert s[..n][j..j + |key|] == s[j..j + |key|];
      }
      if n + j + |key| <= |s| {
        assert s[n..][j..j + |key|] == s[n + j..n + j + |key|];
      }
    }
  }

  // What is in the file after the lines from the i-th on, each of which may be written in part.
  function WrittenText(s: Bytes, k: Keys, written: nat -> nat, i: nat): Bytes
    decreases |s|
  {
    if s == [] then [] else
    var n := LineLength(s);
    match NewLine(s[..n], k)
    case None => []
    case Some(l) => First(l.text, written(i)) + WrittenText(s[n..], k, written, i + 1)
  }

  // Every line is written whole.
  predicate Whole(s: Bytes, k: Keys, written: nat -> nat, i: nat)
    decreases |s|
  {
    s != [] ==>
      var n := LineLength(s);
      match NewLine(s[..n], k)
      case None => true
      case Some(l) => written(i) >= |l.text| && Whole(s[n..], k, written, i + 1)
  }

  // A line written in part is never made up for.
  lemma {:induction false} WrittenExactly(s: Bytes, k: Keys, written: nat -> nat, i: nat)
    requires Rewritten(s, k).Some?
    ensures var t := Rewritten(s, k).value.text;
            |WrittenText(s, k, written, i)| <= |t| && (WrittenText(s, k, written, i) == t <==> Whole(s, k, written, i))
    decreases |s|
  {
    hide NewLine, LineFrom;
    if s != [] {
      var n := LineLength(s);
      var l := NewLine(s[..n], k).value;
      WrittenExactly(s[n..], k, written, i + 1);
      var a, b := First(l.text, written(i)), WrittenText(s[n..], k, written, i + 1);
      var t := Rewritten(s[n..], k).value.text;
      if a + b == l.text + t {
        assert |a| == |l.text| && |b| == |t|;
        assert a == (a + b)[..|a|] && l.text == (l.text + t)[..|l.text|];
        assert b == (a + b)[|a|..] && t == (l.text + t)[|l.text|..];
      }
    }
  }

  // A later line does not see the earlier ones.
  lemma RewrittenStep(found1: nat, found2: nat, s: Bytes, k: Keys, written: nat -> nat, i: nat)
    requires s != []
    ensures var n := LineLength(s);
            match NewLine(s[..n], k)
            case None => Rewritten(s, k).None?
            case Some(l) =>
              && Counts(found1, found2, Rewritten(s, k))
                 == Counts(found1 + l.found1, found2 + l.found2, Rewritten(s[n..], k))
              && WrittenText(s, k, written, i) == First(l.text, written(i)) + WrittenText(s[n..], k, written, i + 1)
  {
    hide NewLine, LineLength;
  }

  // The two counts at the end, if the end is reached.
  function Counts(found1: nat, found2: nat, rest: Option<Line>): Option<(nat, nat)> {
    match rest
    case None => None
    case Some(r) => Some((found1 + r.found1, found2 + r.found2))
  }

  lemma NothingLeft(k: Keys, written: nat -> nat, i: nat)
    ensures Rewritten([], k) == Some(Line([], 0, 0)) && WrittenText([], k, written, i) == []
  {
  }

  // ----- the file system -----

  // Whether a path holds the same in two states.
  predicate Same(a: Files, b: Files, p: Path) { (p in a <==> p in b) && (p in a && p in b ==> a[p] == b[p]) }

  // The client's files and the SPA keys it uses.
  datatype Setup = Setup(certFile: Path, keyFile: Path, configFile: Path, rcFile: Option<Path>,
                         encKey: Option<Bytes>, hmacKey: Option<Bytes>)

  // New credentials from the controller.
  datatype Creds = Creds(cert: Bytes, key: Bytes, encKey: Option<Bytes>, hmacKey: Option<Bytes>)

  // Only where old keys are known and new ones have come.
  predicate ReplacesSpaKeys(s: Setup, c: Creds) {
    s.rcFile.Some? && s.encKey.Some? && s.hmacKey.Some? && c.encKey.Some? && c.hmacKey.Some?
  }

  function SpaKeys(s: Setup, c: Creds): Keys
    requires ReplacesSpaKeys(s, c)
  {
    Keys(s.encKey.value, c.encKey.value, s.hmacKey.value, c.hmacKey.value)
  }

  function Paths(s: Setup): (ps: seq<Path>)
    ensures |ps| >= 3
  {
    [s.certFile, s.keyFile, s.configFile] + if s.rcFile.Some? then [s.rcFile.value] else []
  }

  // No path is another one or another one's backup.
  predicate DistinctPaths(s: Setup) {
    forall i, j | 0 <= i < j < |Paths(s)| ::
      Paths(s)[i] != Paths(s)[j] && Paths(s)[i] != Backup(Paths(s)[j]) && Backup(Paths(s)[i]) != Paths(s)[j]
  }

  predicate Apart(p: Path, q: Path) { p != q && p != Backup(q) && Backup(p) != q && Backup(p) != Backup(q) }

  lemma BackupsDistinct(s: Setup)
    requires DistinctPaths(s)
    ensures Apart(s.certFile, s.keyFile) && Apart(s.certFile, s.configFile) && Apart(s.keyFile, s.configFile)
    ensures s.rcFile.Some? ==> Apart(s.certFile, s.rcFile.value) && Apart(s.keyFile, s.rcFile.value)
    ensures s.rcFile.Some? ==> Apart(s.configFile, s.rcFile.value)
  {
    hide Backup;
    var ps := Paths(s);
    forall i, j | 0 <= i < j < |ps| ensures Apart(ps[i], ps[j]) {
      if Backup(ps[i]) == Backup(ps[j]) {
        BackupInjective(ps[i], ps[j]);
      }
    }
    assert ps[0] == s.certFile && ps[1] == s.keyFile && ps[2] == s.configFile;
    assert s.rcFile.Some? ==> ps[3] == s.rcFile.value;
  }

  // What a step on one file and its backup leaves alone.
  lemma KeptApart(s: Setup, a: Files, b: Files, p: Path)
    requires DistinctPaths(s) && p in Paths(s) && forall q | q != p && q != Backup(p) :: Same(a, b, q)
    ensures p != s.certFile ==> Same(a, b, s.certFile) && Same(a, b, Backup(s.certFile))
    ensures p != s.keyFile ==> Same(a, b, s.keyFile) && Same(a, b, Backup(s.keyFile))
    ensures p != s.configFile ==> Same(a, b, s.configFile) && Same(a, b, Backup(s.configFile))
    ensures s.rcFile.Some? && p != s.rcFile.value ==> Same(a, b, s.rcFile.value) && Same(a, b, Backup(s.rcFile.value))
  {
    hide Backup, Same;
    BackupsDistinct(s);
  }

  predicate AllSame(s: Setup, a: Files, b: Files) {
    && Same(a, b, s.certFile) && Same(a, b, s.keyFile) && Same(a, b, s.configFile)
    && (s.rcFile.Some? ==> Same(a, b, s.rcFile.value))
  }

  predicate Holds(files: Files, p: Path, data: Bytes) { p in files && files[p] == data }

  // The certificate and key are in place, with backups of the old ones.
  predicate SavedFirst(s: Setup, c: Creds, was: Files, files: Files) {
    && s.certFile in was && s.keyFile in was
    && Holds(files, s.certFile, c.cert) && Holds(files, Backup(s.certFile), was[s.certFile])
    && Holds(files, s.keyFile, c.key) && Holds(files, Backup(s.keyFile), was[s.keyFile])
    && Same(was, files, s.configFile) && Same(was, files, Backup(s.configFile))
    && (s.rcFile.Some? ==> Same(was, files, s.rcFile.value) && Same(was, files, Backup(s.rcFile.value)))
  }

  // A file can be put aside if it exists and an old backup can go.
  predicate Movable(files: Files, p: Path, removable: bool) { (Backup(p) in files ==> removable) && p in files }

  predicate Saves(files: Files, p: Path, data: Bytes, removable: bool, w: Saving) {
    Movable(files, p, removable) && w.opens && w.written >= |data| && !w.error && |data| <= MAX_MSG_LEN
  }

  predicate Replaces(files: Files, p: Path, k: Keys, removable: bool, w: Copying) {
    KeysFit(k) && Movable(files, p, removable) && w.canRead && w.canWrite && Replaced(files[p], k).Some?
  }

  // A failed replacement puts an old backup that cannot be removed in the place of the file.
  predicate Reverts(files: Files, p: Path, k: Keys, removable: bool) { KeysFit(k) && !removable && Backup(p) in files }

  // How the four files are written.
  datatype World = World(cert: Saving, key: Saving, config: Copying, rc: Copying)

  predicate FirstSaves(s: Setup, c: Creds, files: Files, removable: bool, w: World) {
    Saves(files, s.certFile, c.cert, removable, w.cert) && Saves(files, s.keyFile, c.key, removable, w.key)
  }

  predicate ConfigReplaces(s: Setup, c: Creds, files: Files, removable: bool, w: World) {
    ReplacesSpaKeys(s, c) && Replaces(files, s.configFile, SpaKeys(s, c), removable, w.config)
  }

  predicate RcReplaces(s: Setup, c: Creds, files: Files, removable: bool, w: World) {
    ReplacesSpaKeys(s, c) && Replaces(files, s.rcFile.value, SpaKeys(s, c), removable, w.rc)
  }

  // When everything can be stored.
  predicate Storable(s: Setup, c: Creds, files: Files, removable: bool, w: World) {
    && FirstSaves(s, c, files, removable, w)
    && (ReplacesSpaKeys(s, c) ==> ConfigReplaces(s, c, files, removable, w) && RcReplaces(s, c, files, removable, w))
  }

  // Everything new: with the keys replaced in the two files as far as their lines were written.
  predicate Stored(s: Setup, c: Creds, was: Files, files: Files, w: World) {
    && Holds(files, s.certFile, c.cert) && Holds(files, s.keyFile, c.key)
    && (if ReplacesSpaKeys(s, c) then
          && s.configFile in was && s.rcFile.value in was
          && Holds(files, s.configFile, WrittenText(was[s.configFile], SpaKeys(s, c), w.config.written, 0))
          && Holds(files, s.rcFile.value, WrittenText(was[s.rcFile.value], SpaKeys(s, c), w.rc.written, 0))
        else
          Same(was, files, s.configFile) && (s.rcFile.Some? ==> Same(was, files, s.rcFile.value)))
  }

  // The file as it was, or the old backup in its place.
  predicate KeptOr(reverts: bool, was: Files, files: Files, p: Path) {
    if reverts && Backup(p) in was then Holds(files, p, was[Backup(p)]) else Same(was, files, p)
  }

  // Nothing new. A configuration file is kept unless its own replacement failed for an old backup
  // that cannot be removed.
  predicate NotStored(s: Setup, c: Creds, was: Files, files: Files, removable: bool, w: World) {
    var reached := ReplacesSpaKeys(s, c) && FirstSaves(s, c, was, removable, w);
    var further := reached && ConfigReplaces(s, c, was, removable, w);
    && Same(was, files, s.certFile) && Same(was, files, s.keyFile)
    && KeptOr(reached && Reverts(was, s.configFile, SpaKeys(s, c), removable), was, files, s.configFile)
    && (s.rcFile.Some? ==>
          KeptOr(further && Reverts(was, s.rcFile.value, SpaKeys(s, c), removable), was, files, s.rcFile.value))
  }

  // Where no old backup is in the way, a failure leaves every file as it was.
  lemma NothingReverts(s: Setup, c: Creds, was: Files, files: Files, removable: bool, w: World)
    requires NotStored(s, c, was, files, removable, w)
    requires removable || (Backup(s.configFile) !in was && (s.rcFile.Some? ==> Backup(s.rcFile.value) !in was))
    ensures AllSame(s, was, files)
  {
  }

  // And with an unremovable backup of the configuration file, the old backup replaces it.
  lemma ConfigReverts(s: Setup, c: Creds, was: Files, files: Files, w: World)
    requires NotStored(s, c, was, files, false, w) && ReplacesSpaKeys(s, c) && KeysFit(SpaKeys(s, c))
    requires FirstSaves(s, c, was, false, w) && Backup(s.configFile) in was
    ensures Holds(files, s.configFile, was[Backup(s.configFile)])
  {
  }

  // The new keys are in both files exactly when every line of both was written whole.
  lemma StoredWhole(s: Setup, c: Creds, was: Files, files: Files, removable: bool, w: World)
    requires Stored(s, c, was, files, w) && Storable(s, c, was, removable, w) && ReplacesSpaKeys(s, c)
    ensures var k := SpaKeys(s, c);
            Holds(files, s.configFile, Replaced(was[s.configFile], k).value)
            && Holds(files, s.rcFile.value, Replaced(was[s.rcFile.value], k).value)
            <==> Whole(was[s.configFile], k, w.config.written, 0) && Whole(was[s.rcFile.value], k, w.rc.written, 0)
  {
    hide Rewritten, WrittenText, Whole;
    WrittenExactly(was[s.configFile], SpaKeys(s, c), w.config.written, 0);
    WrittenExactly(was[s.rcFile.value], SpaKeys(s, c), w.rc.written, 0);
  }

  // Which key goes where: if there are old keys and new ones and a second file, in both files every
  // line with the old encryption key has the new one instead, every other line with the old HMAC
  // key has the new one of that, and the rest is as it was; if not, neither file changes.
  lemma StoredLines(s: Setup, c: Creds, was: Files, files: Files, removable: bool, w: World)
    requires Stored(s, c, was, files, w) && Storable(s, c, was, removable, w)
    ensures ReplacesSpaKeys(s, c) ==>
              var k := Keys(s.encKey.value, c.encKey.value, s.hmacKey.value, c.hmacKey.value);
              && s.configFile in was && s.rcFile.value in was
              && (Whole(was[s.configFile], k, w.config.written, 0) && Whole(was[s.rcFile.value], k, w.rc.written, 0) ==>
                    NewKeysIn(s, c, was, files, s.configFile) && NewKeysIn(s, c, was, files, s.rcFile.value))
    ensures !ReplacesSpaKeys(s, c) ==>
              Same(was, files, s.configFile) && (s.rcFile.Some? ==> Same(was, files, s.rcFile.value))
  {
    hide Rewritten, WrittenText, Whole, Lines, LineReplaced;
    if ReplacesSpaKeys(s, c) {
      StoredWhole(s, c, was, files, removable, w);
      var a := RewrittenLines(was[s.configFile], SpaKeys(s, c));
      var b := RewrittenLines(was[s.rcFile.value], SpaKeys(s, c));
    }
  }

  ghost predicate NewKeysIn(s: Setup, c: Creds, was: Files, files: Files, p: Path)
    requires ReplacesSpaKeys(s, c)
  {
    && p in was && p in files
    && LinesReplaced(was[p], files[p], s.encKey.value, c.encKey.value, s.hmacKey.value, c.hmacKey.value)
  }

  class FileSystem {
    var files: Files
    // Whether a backup left over from before can be removed.
    const removable: bool

    // The current file becomes the backup; an old backup is removed first.
    method MoveToBackup(p: Path) returns (ok: bool)
      modifies this
      ensures ok == Movable(old(files), p, removable)
      ensures ok ==> files == (old(files) - {p})[Backup(p) := old(files)[p]]
      ensures !ok ==> files == if Backup(p) in old(files) && removable then old(files) - {Backup(p)} else old(files)
    {
      if Backup(p) in files {
        if !removable {
          return false;
        }
        files := files - {Backup(p)};
      }
      if p !in files {
        return false;
      }
      var content := files[p];
      files := (files - {p})[Backup(p) := content];
      ok := true;
    }

    // The backup becomes the current file.
    method Restore(p: Path) returns (ok: bool)
      modifies this
      ensures ok == (Backup(p) in old(files))
      ensures files == if ok then (old(files) - {Backup(p)})[p := old(files)[Backup(p)]] else old(files)
    {
      if Backup(p) !in files {
        return false;
      }
      if p in files {
        files := files - {p};
      }
      var content := files[Backup(p)];
      files := (files - {Backup(p)})[p := content];
      ok := true;
    }

    // Writes a new file, or fails having written part of it.
    method WriteNew(p: Path, data: Bytes, w: Saving) returns (ok: bool)
      modifies this
      ensures ok == (w.opens && w.written >= |data| && !w.error && |data| <= MAX_MSG_LEN)
      ensures files == if w.opens then old(files)[p := First(data, w.written)] else old(files)
    {
      if !w.opens {
        return false;
      }
      files := files[p := First(data, w.written)];
      ok := !w.error && w.written >= |data| && |data| <= MAX_MSG_LEN;
    }

    // After a failure the file holds what it held before.
    method SaveToFile(p: Path, data: Bytes, w: Saving) returns (ok: bool)
      modifies this
      ensures ok == Saves(old(files), p, data, removable, w)
      ensures ok ==> files == old(files)[p := data][Backup(p) := old(files)[p]]
      ensures !ok ==> Same(old(files), files, p)
      ensures forall q | q != p && q != Backup(p) :: Same(old(files), files, q)
    {
      ok := MoveToBackup(p);
      if !ok {
        return;
      }
      ok := WriteNew(p, data, w);
      if !ok {
        var restored := Restore(p);
      }
    }

    // Copies the lines of the backup with the keys replaced. How much of a line is written is not looked at.
    method CopyLines(p: Path, source: Bytes, k: Keys, written: nat -> nat) returns (ok: bool)
      modifies this
      ensures ok == Replaced(source, k).Some?
      ensures p in files && files == old(files)[p := files[p]]
      ensures ok ==> files[p] == WrittenText(source, k, written, 0)
    {
      hide NewLine, LineLength, Rewritten, WrittenText;
      files := files[p := []];
      var at, i: nat, count1: nat, count2: nat := 0, 0, 0, 0;
      assert source[0..] == source;
      while at < |source|
        invariant 0 <= at <= |source| && p in files && files == old(files)[p := files[p]]
        invariant Counts(count1, count2, Rewritten(source[at..], k)) == Counts(0, 0, Rewritten(source, k))
        invariant files[p] + WrittenText(source[at..], k, written, i) == WrittenText(source, k, written, 0)
        decreases |source| - at
      {
        var n := LineLength(source[at..]);
        var line := NewLine(source[at..][..n], k);
        RewrittenStep(count1, count2, source[at..], k, written, i);
        assert source[at..][n..] == source[at + n..];
        if line.None? {
          return false;
        }
        var text := First(line.value.text, written(i));
        ghost var rest := WrittenText(source[at + n..], k, written, i + 1);
        assert files[p] + (text + rest) == files[p] + text + rest;
        count1, count2 := count1 + line.value.found1, count2 + line.value.found2;
        files := files[p := files[p] + text];
        at, i := at + n, i + 1;
      }
      NothingLeft(k, written, i);
      assert source[at..] == [];
      ok := count1 >= 1 && count2 >= 1;
    }

    // After a failure the file holds what it held before, or an old backup that was not removable.
    method ReplaceSpaKeys(p: Path, k: Keys, w: Copying) returns (ok: bool)
      modifies this
      ensures ok == Replaces(old(files), p, k, removable, w)
      ensures ok ==> Holds(files, p, WrittenText(old(files)[p], k, w.written, 0))
      ensures ok ==> Holds(files, Backup(p), old(files)[p])
      ensures !ok ==> KeptOr(Reverts(old(files), p, k, removable), old(files), files, p)
      ensures !KeysFit(k) ==> files == old(files)
      ensures forall q | q != p && q != Backup(p) :: Same(old(files), files, q)
    {
      hide Replaced, WrittenText;
      if |k.new1| > 180 || |k.new2| > 180 {
        return false;
      }
      ok := MoveToBackup(p);
      if ok {
        if w.canRead && w.canWrite {
          ok := CopyLines(p, files[Backup(p)], k, w.written);
        } else {
          ok := false;
        }
      }
      if !ok {
        var restored := Restore(p);
      }
    }

    // Puts back files that were saved before a later one failed.
    method RestoreSaved(p: Path, ghost before: Files)
      requires p in before && Holds(files, Backup(p), before[p])
      modifies this
      ensures Same(before, files, p)
      ensures forall q | q != p && q != Backup(p) :: Same(old(files), files, q)
    {
      var restored := Restore(p);
    }

    // Saves the certificate and then the key.
    method SaveFirst(s: Setup, c: Creds, w: World) returns (ok: bool)
      requires DistinctPaths(s)
      modifies this
      ensures ok == FirstSaves(s, c, old(files), removable, w)
      ensures ok ==> SavedFirst(s, c, old(files), files)
      ensures !ok ==> AllSame(s, old(files), files)
    {
      hide Backup;
      ghost var was := files;
      BackupsDistinct(s);
      ok := SaveToFile(s.certFile, c.cert, w.cert);
      ghost var f1 := files;
      KeptApart(s, was, f1, s.certFile);
      if !ok {
        return;
      }
      ok := SaveToFile(s.keyFile, c.key, w.key);
      ghost var f2 := files;
      KeptApart(s, f1, f2, s.keyFile);
      if !ok {
        RestoreSaved(s.certFile, was);
        KeptApart(s, f2, files, s.certFile);
      }
    }

    // All files or none: the certificate, the key and, where SPA keys are replaced, the two
    // configuration files.
    method SaveCredentials(s: Setup, c: Creds, w: World) returns (ok: bool, now: Setup)
      requires DistinctPaths(s)
      modifies this
      ensures ok == Storable(s, c, old(files), removable, w)
      ensures ok ==> Stored(s, c, old(files), files, w)
      ensures ok ==> now == if ReplacesSpaKeys(s, c) then s.(encKey := c.encKey, hmacKey := c.hmacKey) else s
      ensures !ok ==> now == s && NotStored(s, c, old(files), files, removable, w)
    {
      hide Replaced, Backup, WrittenText, Same, Holds, Saves, DistinctPaths;
      now := s;
      ok := SaveFirst(s, c, w);
      if !ok {
        return;
      }
      if c.encKey.Some? && c.hmacKey.Some? && s.encKey.Some? && s.hmacKey.Some? && s.rcFile.Some? {
        ok, now := SaveSpaKeys(s, c, w, old(files));
      }
    }

    method RestoreTwo(s: Setup, ghost was: Files)
      requires DistinctPaths(s) && s.certFile in was && s.keyFile in was
      requires Holds(files, Backup(s.certFile), was[s.certFile]) && Holds(files, Backup(s.keyFile), was[s.keyFile])
      modifies this
      ensures Same(was, files, s.certFile) && Same(was, files, s.keyFile)
      ensures Same(old(files), files, s.configFile) && Same(old(files), files, Backup(s.configFile))
      ensures s.rcFile.Some? ==> Same(old(files), files, s.rcFile.value)
    {
      hide Backup;
      BackupsDistinct(s);
      ghost var f0 := files;
      RestoreSaved(s.certFile, was);
      ghost var f1 := files;
      KeptApart(s, f0, f1, s.certFile);
      RestoreSaved(s.keyFile, was);
      KeptApart(s, f1, files, s.keyFile);
    }

    method SaveSpaKeys(s: Setup, c: Creds, w: World, ghost was: Files) returns (ok: bool, now: Setup)
      requires DistinctPaths(s) && ReplacesSpaKeys(s, c) && SavedFirst(s, c, was, files)
      requires FirstSaves(s, c, was, removable, w)
      modifies this
      ensures ok == Storable(s, c, was, removable, w)
      ensures ok ==> Stored(s, c, was, files, w) && now == s.(encKey := c.encKey, hmacKey := c.hmacKey)
      ensures !ok ==> now == s && NotStored(s, c, was, files, removable, w)
    {
      hide Replaced, Backup, WrittenText;
      BackupsDistinct(s);
      now := s;
      var k := Keys(s.encKey.value, c.encKey.value, s.hmacKey.value, c.hmacKey.value);
      ghost var f0 := files;
      ok := ReplaceSpaKeys(s.configFile, k, w.config);
      ghost var f1 := files;
      KeptApart(s, f0, f1, s.configFile);
      if !ok {
        RestoreTwo(s, was);
        return;
      }
      ok := ReplaceSpaKeys(s.rcFile.value, k, w.rc);
      ghost var f2 := files;
      KeptApart(s, f1, f2, s.rcFile.value);
      if !ok {
        RestoreTwo(s, was);
        ghost var f3 := files;
        RestoreSaved(s.configFile, was);
        KeptApart(s, f3, files, s.configFile);
        return;
      }
      now := s.(encKey := c.encKey, hmacKey := c.hmacKey);
    }
  }
}
