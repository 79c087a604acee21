/** The static whitelist: loading it from configuration and files, and matching against it. */
module Whitelist {
  import opened Wrappers
  import opened Text

  // ---------- networks ----------

  datatype IpAddr = V4(bits: nat) | V6(bits: nat)

  /** A network: the addresses of its family that agree with `base` above `hostBits` low bits. */
  datatype IpNet = IpNet(base: IpAddr, hostBits: nat)

  function Pow2(n: nat): nat
    ensures Pow2(n) > 0
  {
    if n == 0 then 1 else 2 * Pow2(n - 1)
  }

  predicate InNet(net: IpNet, ip: IpAddr) {
    net.base.V4? == ip.V4? && net.base.bits / Pow2(net.hostBits) == ip.bits / Pow2(net.hostBits)
  }

  /** A network is the range of addresses from its first one on. */
  lemma InNetExactly(net: IpNet, ip: IpAddr)
    ensures InNet(net, ip) <==>
            && net.base.V4? == ip.V4?
            && var size := Pow2(net.hostBits);
               var first := net.base.bits - net.base.bits % size;
               first <= ip.bits < first + size
  {
    SameQuotient(net.base.bits, ip.bits, Pow2(net.hostBits));
  }

  lemma SameQuotient(x: nat, y: nat, size: nat)
    requires size > 0
    ensures x / size == y / size <==> x - x % size <= y < x - x % size + size
  {
    QuotientRange(x, size);
    QuotientRange(y, size);
    if x / size < y / size { Stretched(x / size + 1, y / size, size); }
    if y / size < x / size { Stretched(y / size + 1, x / size, size); }
  }

  lemma QuotientRange(x: nat, size: nat)
    requires size > 0
    ensures x - x % size == x / size * size && 0 <= x % size < size
  {
  }

  lemma Stretched(m: nat, n: nat, size: nat)
    requires m <= n
    ensures m * size <= n * size
  {
  }

  predicate AnyContains(nets: seq<IpNet>, ip: IpAddr) {
    exists net <- nets :: InNet(net, ip)
  }

  // ---------- suffixes ----------

  predicate MatchesSuffix(name: string, suffix: string) {
    var lower := Lower(name);
    lower == suffix || EndsWith(lower, ['.'] + suffix)
  }

  function Labels(name: string): seq<string> {
    Split(name, '.')
  }

  /** A name that ends in a dot and the suffix has the suffix's labels last. */
  lemma SuffixGivesLabels(head: string, suffix: string)
    ensures EndsWith(Labels(head + ['.'] + suffix), Labels(suffix))
  {
    SplitAppend(head, suffix, '.');
    assert (Labels(head) + Labels(suffix))[|Labels(head)|..] == Labels(suffix);
  }

  /** A name with more labels before those of the suffix ends in a dot and the suffix. */
  lemma LabelsGiveSuffix(name: string, suffix: string, front: seq<string>)
    requires Labels(name) == front + Labels(suffix) && front != []
    ensures name == Join(front, '.') + ['.'] + suffix
  {
    JoinSplit(name, '.');
    JoinSplit(suffix, '.');
    JoinAppend(front, Labels(suffix), '.');
  }

  lemma EndsWithCut<T>(s: seq<T>, suffix: seq<T>)
    ensures EndsWith(s, suffix) <==> exists head :: s == head + suffix
  {
    if EndsWith(s, suffix) {
      assert s == s[..|s| - |suffix|] + suffix;
    }
  }

  lemma LabelsGiveMatch(name: string, suffix: string)
    requires EndsWith(Labels(name), Labels(suffix))
    ensures name == suffix || EndsWith(name, ['.'] + suffix)
  {
    EndsWithCut(Labels(name), Labels(suffix));
    var front :| Labels(name) == front + Labels(suffix);
    if front == [] {
      assert front + Labels(suffix) == Labels(suffix);
      JoinSplit(name, '.');
      JoinSplit(suffix, '.');
    } else {
      LabelsGiveSuffix(name, suffix, front);
      assert name == Join(front, '.') + (['.'] + suffix);
      EndsWithCut(name, ['.'] + suffix);
    }
  }

  lemma MatchGivesLabels(name: string, suffix: string)
    requires name == suffix || EndsWith(name, ['.'] + suffix)
    ensures EndsWith(Labels(name), Labels(suffix))
  {
    if name == suffix {
      assert Labels(name)[0..] == Labels(name);
    } else {
      EndsWithCut(name, ['.'] + suffix);
      var head :| name == head + (['.'] + suffix);
      assert name == head + ['.'] + suffix;
      SuffixGivesLabels(head, suffix);
    }
  }

  /** A suffix rule matches exactly the names whose last labels are the labels of the rule. */
  lemma SuffixIsLabels(name: string, suffix: string)
    ensures MatchesSuffix(name, suffix) <==> EndsWith(Labels(Lower(name)), Labels(suffix))
  {
    if MatchesSuffix(name, suffix) {
      MatchGivesLabels(Lower(name), suffix);
    }
    if EndsWith(Labels(Lower(name)), Labels(suffix)) {
      LabelsGiveMatch(Lower(name), suffix);
    }
  }

  // ---------- entries ----------

  datatype Entry = IpEntry(net: IpNet) | HeloEntry(name: string) | DomainEntry(domain: string) | PtrEntry(ptr: string)

  datatype LineError = UnrecognizedEntry(line: string) | InvalidCidr(value: string)

  datatype WhitelistError =
    | Unreadable(file: nat)
    | BadLine(file: nat, lineNo: nat, error: LineError)

  /** `char::is_whitespace`: the characters with the Unicode White_Space property. */
  predicate IsSpace(c: char) {
    var n := c as int;
    0x9 <= n <= 0xD || n == 0x20 || n == 0x85 || n == 0xA0 || n == 0x1680 || 0x2000 <= n <= 0x200A
    || n == 0x2028 || n == 0x2029 || n == 0x202F || n == 0x205F || n == 0x3000
  }

  /** The 25 code points of the property list of Unicode. */
  lemma IsSpaceExactly(c: char)
    ensures IsSpace(c) <==>
            c as int in {0x9, 0xA, 0xB, 0xC, 0xD, 0x20, 0x85, 0xA0, 0x1680,
                         0x2000, 0x2001, 0x2002, 0x2003, 0x2004, 0x2005, 0x2006, 0x2007, 0x2008, 0x2009, 0x200A,
                         0x2028, 0x2029, 0x202F, 0x205F, 0x3000}
  {
  }

  function TrimStart(s: string): string {
    if s != [] && IsSpace(s[0]) then TrimStart(s[1..]) else s
  }

  function TrimEnd(s: string): string {
    if s != [] && IsSpace(s[|s| - 1]) then TrimEnd(s[..|s| - 1]) else s
  }

  function Trim(s: string): string {
    TrimEnd(TrimStart(s))
  }

  type NetParser = string -> Option<IpNet>

  /** One entry line, already trimmed. */
  function ParseEntry(line: string, parseNet: NetParser): Result<Entry, LineError> {
    match SplitOnce(line, ':')
    case None => Err(UnrecognizedEntry(line))
    case Some(cut) =>
      var value := Trim(cut.1);
      if cut.0 == "ip" then
        (match parseNet(value)
         case None => Err(InvalidCidr(value))
         case Some(net) => Ok(IpEntry(net)))
      else if cut.0 == "helo" then Ok(HeloEntry(Lower(value)))
      else if cut.0 == "domain" then Ok(DomainEntry(Lower(value)))
      else if cut.0 == "ptr" then Ok(PtrEntry(Lower(value)))
      else Err(UnrecognizedEntry(line))
  }

  ghost predicate AllSpace(s: string) {
    forall c <- s :: IsSpace(c)
  }

  lemma {:induction false} TrimStartCut(s: string) returns (front: string)
    ensures s == front + TrimStart(s) && AllSpace(front)
    ensures TrimStart(s) != [] ==> !IsSpace(TrimStart(s)[0])
  {
    if s != [] && IsSpace(s[0]) {
      var more := TrimStartCut(s[1..]);
      front := [s[0]] + more;
      Regroup([s[0]], more, TrimStart(s));
      assert [s[0]] + s[1..] == s;
    } else {
      front := [];
    }
  }

  lemma {:induction false} TrimEndCut(s: string) returns (back: string)
    ensures s == TrimEnd(s) + back && AllSpace(back)
    ensures TrimEnd(s) != [] ==> !IsSpace(TrimEnd(s)[|TrimEnd(s)| - 1])
  {
    var n := |s| - 1;
    if s != [] && IsSpace(s[n]) {
      var more := TrimEndCut(s[..n]);
      back := more + [s[n]];
      Regroup(TrimEnd(s), more, [s[n]]);
      assert s[..n] + [s[n]] == s;
    } else {
      back := [];
    }
  }

  /** Trimming takes off surrounding space, all of it, and nothing else. */
  lemma TrimExact(s: string)
    ensures exists a, b :: s == a + Trim(s) + b && AllSpace(a) && AllSpace(b)
    ensures Trim(s) != [] ==> !IsSpace(Trim(s)[0]) && !IsSpace(Trim(s)[|Trim(s)| - 1])
  {
    var a := TrimStartCut(s);
    var b := TrimEndCut(TrimStart(s));
    Regroup(a, Trim(s), b);
    assert Trim(s) != [] ==> Trim(s)[0] == TrimStart(s)[0];
  }

  ghost predicate Written(line: string, prefix: string, value: string) {
    exists v :: line == prefix + [':'] + v && Trim(v) == value
  }

  function PrefixOf(e: Entry): (p: string)
    ensures ':' !in p
  {
    match e
    case IpEntry(_) => "ip"
    case HeloEntry(_) => "helo"
    case DomainEntry(_) => "domain"
    case PtrEntry(_) => "ptr"
  }

  /** The value, without surrounding space, stands for the entry; letter case does not matter in names. */
  ghost predicate Denotes(value: string, e: Entry, parseNet: NetParser) {
    match e
    case IpEntry(net) => parseNet(value) == Some(net)
    case HeloEntry(name) => name == Lower(value)
    case DomainEntry(domain) => domain == Lower(value)
    case PtrEntry(ptr) => ptr == Lower(value)
  }

  /** How an entry is written on a line. */
  ghost predicate Writes(line: string, e: Entry, parseNet: NetParser) {
    exists value :: Written(line, PrefixOf(e), value) && Denotes(value, e, parseNet)
  }

  lemma WrittenCut(line: string, prefix: string, value: string)
    requires ':' !in prefix
    ensures Written(line, prefix, value)
       <==> && SplitOnce(line, ':').Some?
            && SplitOnce(line, ':').value.0 == prefix && Trim(SplitOnce(line, ':').value.1) == value
  {
    forall v | line == prefix + [':'] + v ensures SplitOnce(line, ':') == Some((prefix, v)) {
      var cut := SplitOnce(line, ':').value;
      FirstCutUnique(cut.0, cut.1, prefix, v, ':');
    }
  }

  lemma ParsedCut(line: string, e: Entry, parseNet: NetParser)
    requires SplitOnce(line, ':').Some?
    ensures var cut := SplitOnce(line, ':').value;
            ParseEntry(line, parseNet) == Ok(e) <==> cut.0 == PrefixOf(e) && Denotes(Trim(cut.1), e, parseNet)
  {
  }

  /** A line is read as an entry exactly when it is written so. */
  lemma ParseEntryExactly(line: string, e: Entry, parseNet: NetParser)
    ensures ParseEntry(line, parseNet) == Ok(e) <==> Writes(line, e, parseNet)
  {
    if SplitOnce(line, ':').Some? {
      ParsedCut(line, e, parseNet);
      WrittenCut(line, PrefixOf(e), Trim(SplitOnce(line, ':').value.1));
    }
    forall value | Written(line, PrefixOf(e), value)
      ensures SplitOnce(line, ':').Some? && Trim(SplitOnce(line, ':').value.1) == value
    {
      WrittenCut(line, PrefixOf(e), value);
    }
  }

  /** Blank lines and comments are skipped. */
  predicate Skipped(line: string) {
    var trimmed := Trim(line);
    trimmed == [] || trimmed[0] == '#'
  }

  /** A line is skipped exactly when it has nothing but space, or `#` is the first other character. */
  lemma SkippedExactly(line: string)
    ensures Skipped(line) <==>
            || AllSpace(line)
            || exists a: string, rest: string :: AllSpace(a) && line == a + "#" + rest
  {
    if Skipped(line) {
      SkippedShown(line);
    }
    forall a: string, rest: string | AllSpace(a) && line == a + "#" + rest ensures Skipped(line) {
      CommentTrimmed(a, rest);
    }
    if AllSpace(line) {
      SpaceTrimmed(line);
    }
  }

  lemma SkippedShown(line: string)
    requires Skipped(line)
    ensures AllSpace(line) || exists a: string, rest: string :: AllSpace(a) && line == a + "#" + rest
  {
    TrimExact(line);
    var front, back :| line == front + Trim(line) + back && AllSpace(front) && AllSpace(back);
    CommentShown(front, Trim(line), back);
  }

  lemma CommentShown(front: string, t: string, back: string)
    requires AllSpace(front) && AllSpace(back) && (t == [] || t[0] == '#')
    ensures var line := front + t + back;
            AllSpace(line) || exists a: string, rest: string :: AllSpace(a) && line == a + "#" + rest
  {
    if t != [] {
      assert t == "#" + t[1..];
      assert front + t + back == front + "#" + (t[1..] + back);
    }
  }

  lemma {:induction false} SpaceTrimmed(s: string)
    requires AllSpace(s)
    ensures TrimStart(s) == []
  {
    if s != [] {
      assert s[0] in s;
      SpaceTrimmed(s[1..]);
    }
  }

  lemma {:induction false} CommentTrimmed(a: string, rest: string)
    requires AllSpace(a)
    ensures TrimStart(a + "#" + rest) == "#" + rest
    ensures Trim(a + "#" + rest) != [] && Trim(a + "#" + rest)[0] == '#'
  {
    var s := a + "#" + rest;
    if a == [] {
      assert s == "#" + rest;
      var back := TrimEndCut(s);
      CommentKept(rest);
    } else {
      assert a[0] in a && s[0] == a[0] && s[1..] == a[1..] + "#" + rest;
      CommentTrimmed(a[1..], rest);
    }
  }

  lemma {:induction false} CommentKept(rest: string)
    ensures TrimEnd("#" + rest) != [] && TrimEnd("#" + rest)[0] == '#'
    decreases |rest|
  {
    var s := "#" + rest;
    if IsSpace(s[|s| - 1]) {
      assert rest != [];
      var n := |rest| - 1;
      assert s[..|s| - 1] == "#" + rest[..n];
      CommentKept(rest[..n]);
    }
  }

  /** The two errors: an `ip:` value that is no network, and a line that is written as no kind of entry. */
  lemma ParseErrorsExactly(line: string, error: LineError, parseNet: NetParser)
    ensures ParseEntry(line, parseNet) == Err(error) <==>
            || (error.InvalidCidr? && Written(line, "ip", error.value) && parseNet(error.value) == None)
            || (error == UnrecognizedEntry(line)
                && forall prefix, value :: Written(line, prefix, value) && ':' !in prefix
                                           ==> prefix !in {"ip", "helo", "domain", "ptr"})
  {
    forall prefix: string, value: string | ':' !in prefix
      ensures Written(line, prefix, value) <==>
              && SplitOnce(line, ':').Some?
              && SplitOnce(line, ':').value.0 == prefix && Trim(SplitOnce(line, ':').value.1) == value
    {
      WrittenCut(line, prefix, value);
    }
    assert ':' !in "ip";
    if SplitOnce(line, ':').Some? {
      var cut := SplitOnce(line, ':').value;
      assert Written(line, cut.0, Trim(cut.1));
    }
  }

  predicate ValidLine(line: string, parseNet: NetParser) {
    Skipped(line) || ParseEntry(Trim(line), parseNet).Ok?
  }

  /** The entries of lines that are all valid. */
  function EntriesOf(lines: seq<string>, parseNet: NetParser): seq<Entry> {
    if lines == [] then []
    else if Skipped(lines[0]) then EntriesOf(lines[1..], parseNet)
    else match ParseEntry(Trim(lines[0]), parseNet)
      case Ok(e) => [e] + EntriesOf(lines[1..], parseNet)
      case Err(_) => []
  }

  lemma EntriesOfFirst(lines: seq<string>, parseNet: NetParser)
    requires lines != [] && ValidLine(lines[0], parseNet)
    ensures EntriesOf(lines, parseNet) == EntriesOf([lines[0]], parseNet) + EntriesOf(lines[1..], parseNet)
  {
    assert [lines[0]][1..] == [];
  }

  /** A valid line adds its entry to those of the lines after it. */
  lemma NextLine(lines: seq<string>, i: nat, parseNet: NetParser, before: seq<Entry>, done: seq<Entry>)
    requires i < |lines| && ValidLine(lines[i], parseNet)
    ensures var entry := EntriesOf([lines[i]], parseNet);
            && (before + done) + entry == before + (done + entry)
            && done + EntriesOf(lines[i..], parseNet) == (done + entry) + EntriesOf(lines[i + 1..], parseNet)
  {
    var entry, after := EntriesOf([lines[i]], parseNet), EntriesOf(lines[i + 1..], parseNet);
    EntriesOfFirst(lines[i..], parseNet);
    assert lines[i..][0] == lines[i] && lines[i..][1..] == lines[i + 1..];
    Regroup(before, done, entry);
    Regroup(done, entry, after);
  }

  /** The error of the first invalid line, with its number. */
  ghost predicate FirstBadLine(lines: seq<string>, i: nat, parseNet: NetParser, lineNo: nat, error: LineError) {
    && i < |lines| && lineNo == i + 1
    && ValidUpTo(lines, i, parseNet)
    && InvalidLine(lines[i], parseNet, error)
  }

  ghost predicate ValidUpTo(lines: seq<string>, i: nat, parseNet: NetParser) {
    forall j :: 0 <= j < i && j < |lines| ==> ValidLine(lines[j], parseNet)
  }

  lemma ErrorFound(lines: seq<string>, i: nat, parseNet: NetParser, error: LineError)
    requires i < |lines| && ValidUpTo(lines, i, parseNet) && InvalidLine(lines[i], parseNet, error)
    ensures FirstBadLine(lines, i, parseNet, i + 1, error)
    ensures !ValidFile(Some(lines), parseNet)
  {
    assert lines[i] in lines;
  }

  lemma AllLinesValid(lines: seq<string>, parseNet: NetParser)
    requires ValidUpTo(lines, |lines|, parseNet)
    ensures ValidFile(Some(lines), parseNet)
  {
  }

  ghost predicate InvalidLine(line: string, parseNet: NetParser, error: LineError) {
    !Skipped(line) && ParseEntry(Trim(line), parseNet) == Err(error)
  }

  // ---------- loading ----------

  datatype Whitelist = Whitelist(ips: seq<IpNet>, heloNames: set<string>, domains: seq<string>, domainsPtr: seq<string>)

  /** The inline entries; `files` are the lines of each file, `None` for one that cannot be read. */
  datatype WhitelistConfig = WhitelistConfig(
    ips: seq<IpNet>, heloNames: seq<string>, domains: seq<string>, domainsPtr: seq<string>,
    files: seq<Option<seq<string>>>)

  /** The whitelist holds exactly these entries. */
  ghost predicate Holds(w: Whitelist, entries: seq<Entry>) {
    && (forall net :: net in w.ips <==> IpEntry(net) in entries)
    && (forall s :: s in w.heloNames <==> HeloEntry(s) in entries)
    && (forall s :: s in w.domains <==> DomainEntry(s) in entries)
    && (forall s :: s in w.domainsPtr <==> PtrEntry(s) in entries)
  }

  function Lowered(names: seq<string>): (r: seq<string>)
    ensures |r| == |names|
    ensures forall i :: 0 <= i < |names| ==> r[i] == Lower(names[i])
  {
    seq(|names|, i requires 0 <= i < |names| => Lower(names[i]))
  }

  function InlineEntries(cfg: WhitelistConfig): seq<Entry> {
    seq(|cfg.ips|, i requires 0 <= i < |cfg.ips| => IpEntry(cfg.ips[i]))
    + seq(|cfg.heloNames|, i requires 0 <= i < |cfg.heloNames| => HeloEntry(Lower(cfg.heloNames[i])))
    + seq(|cfg.domains|, i requires 0 <= i < |cfg.domains| => DomainEntry(Lower(cfg.domains[i])))
    + seq(|cfg.domainsPtr|, i requires 0 <= i < |cfg.domainsPtr| => PtrEntry(Lower(cfg.domainsPtr[i])))
  }

  function FileEntries(files: seq<Option<seq<string>>>, parseNet: NetParser): seq<Entry> {
    if files == [] then []
    else match files[0]
      case None => []
      case Some(lines) => EntriesOf(lines, parseNet) + FileEntries(files[1..], parseNet)
  }

  predicate ValidFile(file: Option<seq<string>>, parseNet: NetParser) {
    file.Some? && forall l <- file.value :: ValidLine(l, parseNet)
  }

  /** The whitelist while it is being loaded. */
  class Loading {
    var ips: seq<IpNet>
    var heloNames: set<string>
    var domains: seq<string>
    var domainsPtr: seq<string>

    constructor (cfg: WhitelistConfig)
      ensures Holds(Value(), InlineEntries(cfg))
    {
      ips := cfg.ips;
      heloNames := set s <- Lowered(cfg.heloNames);
      domains := Lowered(cfg.domains);
      domainsPtr := Lowered(cfg.domainsPtr);
      new;
      InlineHeld(cfg, Value());
    }

    function Value(): Whitelist
      reads this
    {
      Whitelist(ips, heloNames, domains, domainsPtr)
    }

    method ApplyFileLine(line: string, parseNet: NetParser, ghost entries: seq<Entry>)
      returns (r: Result<(), LineError>)
      requires Holds(Value(), entries)
      modifies this
      ensures r.Ok? <==> ParseEntry(line, parseNet).Ok?
      ensures r.Ok? ==> Holds(Value(), entries + [ParseEntry(line, parseNet).value])
      ensures r.Err? ==> r.error == ParseEntry(line, parseNet).error && Value() == old(Value())
    {
      match SplitOnce(line, ':')
      case None =>
        return Err(UnrecognizedEntry(line));
      case Some(cut) =>
        var value := Trim(cut.1);
        if cut.0 == "ip" {
          match parseNet(value) {
            case None => return Err(InvalidCidr(value));
            case Some(net) => ips := ips + [net];
          }
        } else if cut.0 == "helo" {
          heloNames := heloNames + {Lower(value)};
        } else if cut.0 == "domain" {
          domains := domains + [Lower(value)];
        } else if cut.0 == "ptr" {
          domainsPtr := domainsPtr + [Lower(value)];
        } else {
          return Err(UnrecognizedEntry(line));
        }
        r := Ok(());
    }

    /** One round of the loop over the lines of a file. */
    method LoadLine(line: string, parseNet: NetParser, ghost entries: seq<Entry>) returns (r: Result<(), LineError>)
      requires Holds(Value(), entries)
      modifies this
      ensures r.Ok? <==> ValidLine(line, parseNet)
      ensures r.Ok? ==> Holds(Value(), entries + EntriesOf([line], parseNet))
      ensures r.Err? ==> InvalidLine(line, parseNet, r.error) && Value() == old(Value())
    {
      var trimmed := Trim(line);
      assert [line][1..] == [];
      if trimmed == [] || trimmed[0] == '#' {
        assert entries + [] == entries;
        return Ok(());
      }
      r := ApplyFileLine(trimmed, parseNet, entries);
    }

    /** Applies the lines of one file; the first invalid one ends it, with its number and the line error. */
    method LoadFile(file: nat, lines: seq<string>, parseNet: NetParser, ghost entries: seq<Entry>)
      returns (r: Result<(), WhitelistError>)
      requires Holds(Value(), entries)
      modifies this
      ensures r.Ok? <==> ValidFile(Some(lines), parseNet)
      ensures r.Ok? ==> Holds(Value(), entries + EntriesOf(lines, parseNet))
      ensures r.Err? ==> r.error.BadLine? && r.error.file == file
                         && exists i :: FirstBadLine(lines, i, parseNet, r.error.lineNo, r.error.error)
    {
      var i := 0;
      assert lines[0..] == lines;
      ghost var done: seq<Entry> := [];
      assert entries + [] == entries;
      while i < |lines|
        invariant 0 <= i <= |lines|
        invariant ValidUpTo(lines, i, parseNet)
        invariant EntriesOf(lines, parseNet) == done + EntriesOf(lines[i..], parseNet)
        invariant Holds(Value(), entries + done)
      {
        var applied := LoadLine(lines[i], parseNet, entries + done);
        if applied.Err? {
          ErrorFound(lines, i, parseNet, applied.error);
          return Err(BadLine(file, i + 1, applied.error));
        }
        NextLine(lines, i, parseNet, entries, done);
        done := done + EntriesOf([lines[i]], parseNet);
        i := i + 1;
      }
      assert done + EntriesOf(lines[i..], parseNet) == done;
      AllLinesValid(lines, parseNet);
      r := Ok(());
    }

    /** The loop over the configured files. */
    method LoadFiles(files: seq<Option<seq<string>>>, parseNet: NetParser, ghost entries: seq<Entry>)
      returns (r: Result<(), WhitelistError>)
      requires Holds(Value(), entries)
      modifies this
      ensures r.Ok? <==> AllLoadable(files, parseNet)
      ensures r.Ok? ==> Holds(Value(), entries + FileEntries(files, parseNet))
      ensures r.Err? ==> FirstBadFile(files, r.error.file, parseNet)
    {
      ghost var done := entries;
      var i := 0;
      assert files[0..] == files;
      while i < |files|
        invariant 0 <= i <= |files|
        invariant FilesValidUpTo(files, i, parseNet)
        invariant entries + FileEntries(files, parseNet) == done + FileEntries(files[i..], parseNet)
        invariant Holds(Value(), done)
      {
        match files[i] {
          case None =>
            BadFileFound(files, i, parseNet);
            return Err(Unreadable(i));
          case Some(lines) =>
            r := LoadFile(i, lines, parseNet, done);
            if r.Err? {
              BadFileFound(files, i, parseNet);
              return;
            }
            NextFile(files, i, parseNet, done);
            done := done + EntriesOf(lines, parseNet);
        }
        i := i + 1;
      }
      assert done + FileEntries(files[i..], parseNet) == done;
      AllFilesValid(files, parseNet);
      r := Ok(());
    }
  }

  ghost predicate AllLoadable(files: seq<Option<seq<string>>>, parseNet: NetParser) {
    forall f <- files :: ValidFile(f, parseNet)
  }

  ghost predicate FilesValidUpTo(files: seq<Option<seq<string>>>, i: nat, parseNet: NetParser) {
    forall j :: 0 <= j < i && j < |files| ==> ValidFile(files[j], parseNet)
  }

  ghost predicate FirstBadFile(files: seq<Option<seq<string>>>, i: nat, parseNet: NetParser) {
    i < |files| && !ValidFile(files[i], parseNet) && FilesValidUpTo(files, i, parseNet)
  }

  lemma BadFileFound(files: seq<Option<seq<string>>>, i: nat, parseNet: NetParser)
    requires i < |files| && !ValidFile(files[i], parseNet)
    ensures !AllLoadable(files, parseNet)
  {
    assert files[i] in files;
  }

  lemma AllFilesValid(files: seq<Option<seq<string>>>, parseNet: NetParser)
    requires FilesValidUpTo(files, |files|, parseNet)
    ensures AllLoadable(files, parseNet)
  {
  }

  lemma Wrapped<T>(xs: seq<T>, entries: seq<Entry>, wrap: T -> Entry, x: T)
    requires |entries| == |xs| && forall i :: 0 <= i < |xs| ==> entries[i] == wrap(xs[i])
    requires forall y, z :: wrap(y) == wrap(z) ==> y == z
    ensures x in xs <==> wrap(x) in entries
  {
    if x in xs {
      var i :| 0 <= i < |xs| && xs[i] == x;
      assert entries[i] == wrap(x);
    }
    if wrap(x) in entries {
      var i :| 0 <= i < |entries| && entries[i] == wrap(x);
      assert wrap(xs[i]) == wrap(x);
    }
  }

  lemma InlineHeld(cfg: WhitelistConfig, w: Whitelist)
    requires w.ips == cfg.ips && w.heloNames == (set s <- Lowered(cfg.heloNames))
    requires w.domains == Lowered(cfg.domains) && w.domainsPtr == Lowered(cfg.domainsPtr)
    ensures Holds(w, InlineEntries(cfg))
  {
    var a := seq(|cfg.ips|, i requires 0 <= i < |cfg.ips| => IpEntry(cfg.ips[i]));
    var b := seq(|cfg.heloNames|, i requires 0 <= i < |cfg.heloNames| => HeloEntry(Lower(cfg.heloNames[i])));
    var c := seq(|cfg.domains|, i requires 0 <= i < |cfg.domains| => DomainEntry(Lower(cfg.domains[i])));
    var d := seq(|cfg.domainsPtr|, i requires 0 <= i < |cfg.domainsPtr| => PtrEntry(Lower(cfg.domainsPtr[i])));
    assert forall e :: e in InlineEntries(cfg) <==> e in a || e in b || e in c || e in d;
    forall net ensures net in w.ips <==> IpEntry(net) in a {
      Wrapped(cfg.ips, a, x => IpEntry(x), net);
    }
    forall s ensures s in w.heloNames <==> HeloEntry(s) in b {
      Wrapped(Lowered(cfg.heloNames), b, x => HeloEntry(x), s);
    }
    forall s ensures s in w.domains <==> DomainEntry(s) in c {
      Wrapped(w.domains, c, x => DomainEntry(x), s);
    }
    forall s ensures s in w.domainsPtr <==> PtrEntry(s) in d {
      Wrapped(w.domainsPtr, d, x => PtrEntry(x), s);
    }
  }

  /** Everything the configuration and its files list. */
  function AllEntries(cfg: WhitelistConfig, parseNet: NetParser): seq<Entry> {
    InlineEntries(cfg) + FileEntries(cfg.files, parseNet)
  }

  ghost predicate Loadable(cfg: WhitelistConfig, parseNet: NetParser) {
    AllLoadable(cfg.files, parseNet)
  }

  /**
    Loading succeeds exactly when every file can be read and every line is valid, and then holds
    exactly the entries.
   */
  method Load(cfg: WhitelistConfig, parseNet: NetParser) returns (r: Result<Whitelist, WhitelistError>)
    ensures r.Ok? <==> Loadable(cfg, parseNet)
    ensures r.Ok? ==> Holds(r.value, AllEntries(cfg, parseNet))
    ensures r.Err? ==> FirstBadFile(cfg.files, r.error.file, parseNet)
  {
    var loading := new Loading(cfg);
    var loaded := loading.LoadFiles(cfg.files, parseNet, InlineEntries(cfg));
    match loaded
    case Ok(_) => r := Ok(loading.Value());
    case Err(e) => r := Err(e);
  }

  lemma NextFile(files: seq<Option<seq<string>>>, i: nat, parseNet: NetParser, before: seq<Entry>)
    requires i < |files| && files[i].Some?
    ensures before + FileEntries(files[i..], parseNet)
         == (before + EntriesOf(files[i].value, parseNet)) + FileEntries(files[i + 1..], parseNet)
  {
    assert files[i..][0] == files[i] && files[i..][1..] == files[i + 1..];
    Regroup(before, EntriesOf(files[i].value, parseNet), FileEntries(files[i + 1..], parseNet));
  }

  // ---------- matching ----------

  datatype Reason = ByIp | ByHelo | ByDomain | ByDomainPtr

  datatype Query = Query(ip: IpAddr, helo: string, mailFromDomain: Option<string>, reverseClientName: Option<string>)

  predicate AnySuffix(name: string, suffixes: seq<string>) {
    exists d <- suffixes :: MatchesSuffix(name, d)
  }

  function Matches(w: Whitelist, q: Query): Option<Reason> {
    if AnyContains(w.ips, q.ip) then Some(ByIp)
    else if Lower(q.helo) in w.heloNames then Some(ByHelo)
    else if AnySuffix(q.helo, w.domains) then Some(ByDomain)
    else if q.mailFromDomain.Some? && AnySuffix(q.mailFromDomain.value, w.domains) then Some(ByDomain)
    else if q.reverseClientName.Some? && AnySuffix(q.reverseClientName.value, w.domainsPtr) then Some(ByDomainPtr)
    else None
  }

  /** `entry` exempts the query on its own, for the given reason; domains by their labels. */
  ghost predicate Exempts(entry: Entry, q: Query, reason: Reason) {
    match (entry, reason)
    case (IpEntry(net), ByIp) => InNet(net, q.ip)
    case (HeloEntry(name), ByHelo) => Lower(q.helo) == name
    case (DomainEntry(d), ByDomain) =>
      || EndsWith(Labels(Lower(q.helo)), Labels(d))
      || (q.mailFromDomain.Some? && EndsWith(Labels(Lower(q.mailFromDomain.value)), Labels(d)))
    case (PtrEntry(d), ByDomainPtr) =>
      q.reverseClientName.Some? && EndsWith(Labels(Lower(q.reverseClientName.value)), Labels(d))
    case _ => false
  }

  ghost predicate SomeExempts(entries: seq<Entry>, q: Query, reason: Reason) {
    exists e <- entries :: Exempts(e, q, reason)
  }

  function Rank(reason: Reason): nat {
    match reason case ByIp => 0 case ByHelo => 1 case ByDomain => 2 case ByDomainPtr => 3
  }

  /** The strongest reason for which some entry exempts the query. */
  ghost predicate Strongest(entries: seq<Entry>, q: Query, r: Option<Reason>) {
    match r
    case None => forall reason :: !SomeExempts(entries, q, reason)
    case Some(reason) =>
      SomeExempts(entries, q, reason)
      && forall other :: Rank(other) < Rank(reason) ==> !SomeExempts(entries, q, other)
  }

  lemma HeldIp(w: Whitelist, entries: seq<Entry>, q: Query)
    requires Holds(w, entries)
    ensures AnyContains(w.ips, q.ip) <==> SomeExempts(entries, q, ByIp)
    ensures Lower(q.helo) in w.heloNames <==> SomeExempts(entries, q, ByHelo)
  {
    if AnyContains(w.ips, q.ip) {
      var net :| net in w.ips && InNet(net, q.ip);
      assert Exempts(IpEntry(net), q, ByIp);
    }
    if Lower(q.helo) in w.heloNames {
      assert Exempts(HeloEntry(Lower(q.helo)), q, ByHelo);
    }
  }

  lemma HeldDomain(w: Whitelist, entries: seq<Entry>, q: Query)
    requires Holds(w, entries)
    ensures AnySuffix(q.helo, w.domains) || (q.mailFromDomain.Some? && AnySuffix(q.mailFromDomain.value, w.domains))
       <==> SomeExempts(entries, q, ByDomain)
  {
    forall name: string, d: string ensures MatchesSuffix(name, d) <==> EndsWith(Labels(Lower(name)), Labels(d)) {
      SuffixIsLabels(name, d);
    }
    if AnySuffix(q.helo, w.domains) {
      var d :| d in w.domains && MatchesSuffix(q.helo, d);
      assert Exempts(DomainEntry(d), q, ByDomain);
    } else if q.mailFromDomain.Some? && AnySuffix(q.mailFromDomain.value, w.domains) {
      var d :| d in w.domains && MatchesSuffix(q.mailFromDomain.value, d);
      assert Exempts(DomainEntry(d), q, ByDomain);
    }
    if SomeExempts(entries, q, ByDomain) {
      var e :| e in entries && Exempts(e, q, ByDomain);
      assert e.domain in w.domains;
    }
  }

  lemma HeldPtr(w: Whitelist, entries: seq<Entry>, q: Query)
    requires Holds(w, entries)
    ensures q.reverseClientName.Some? && AnySuffix(q.reverseClientName.value, w.domainsPtr)
       <==> SomeExempts(entries, q, ByDomainPtr)
  {
    forall name: string, d: string ensures MatchesSuffix(name, d) <==> EndsWith(Labels(Lower(name)), Labels(d)) {
      SuffixIsLabels(name, d);
    }
    if q.reverseClientName.Some? && AnySuffix(q.reverseClientName.value, w.domainsPtr) {
      var d :| d in w.domainsPtr && MatchesSuffix(q.reverseClientName.value, d);
      assert Exempts(PtrEntry(d), q, ByDomainPtr);
    }
    if SomeExempts(entries, q, ByDomainPtr) {
      var e :| e in entries && Exempts(e, q, ByDomainPtr);
      assert e.ptr in w.domainsPtr;
    }
  }

  /** Matching a loaded whitelist gives the strongest reason among its entries, whatever their order. */
  lemma MatchesStrongest(w: Whitelist, entries: seq<Entry>, q: Query)
    requires Holds(w, entries)
    ensures Strongest(entries, q, Matches(w, q))
  {
    HeldIp(w, entries, q);
    HeldDomain(w, entries, q);
    HeldPtr(w, entries, q);
  }

  lemma StrongestUnique(entries: seq<Entry>, q: Query, r: Option<Reason>, r': Option<Reason>)
    requires Strongest(entries, q, r) && Strongest(entries, q, r')
    ensures r == r'
  {
    if r.Some? && r'.Some? {
      assert Rank(r.value) == Rank(r'.value);
    }
  }

  /** Two whitelists with the same entries, in whatever order, files and number, match alike. */
  lemma OrderIndependent(w: Whitelist, entries: seq<Entry>, w': Whitelist, entries': seq<Entry>, q: Query)
    requires Holds(w, entries) && Holds(w', entries')
    requires forall e :: e in entries <==> e in entries'
    ensures Matches(w, q) == Matches(w', q)
  {
    MatchesStrongest(w, entries, q);
    MatchesStrongest(w', entries', q);
    assert forall reason :: SomeExempts(entries, q, reason) <==> SomeExempts(entries', q, reason);
    StrongestUnique(entries, q, Matches(w, q), Matches(w', q));
  }

  /** More entries never lose a match, and only make its reason stronger. */
  lemma MoreEntries(w: Whitelist, entries: seq<Entry>, w': Whitelist, entries': seq<Entry>, q: Query)
    requires Holds(w, entries) && Holds(w', entries')
    requires forall e :: e in entries ==> e in entries'
    ensures Matches(w, q).Some? ==> Matches(w', q).Some? && Rank(Matches(w', q).value) <= Rank(Matches(w, q).value)
  {
    MatchesStrongest(w, entries, q);
    MatchesStrongest(w', entries', q);
    assert forall reason :: SomeExempts(entries, q, reason) ==> SomeExempts(entries', q, reason);
  }

  // ---------- permuting lines ----------

  ghost predicate AllValid(lines: seq<string>, parseNet: NetParser) {
    forall l <- lines :: ValidLine(l, parseNet)
  }

  lemma {:induction false} EntriesMembers(lines: seq<string>, parseNet: NetParser, e: Entry)
    requires AllValid(lines, parseNet)
    ensures e in EntriesOf(lines, parseNet)
        <==> exists l <- lines :: !Skipped(l) && ParseEntry(Trim(l), parseNet) == Ok(e)
  {
    if lines != [] {
      assert lines[0] in lines;
      EntriesMembers(lines[1..], parseNet, e);
      assert forall l :: l in lines <==> l == lines[0] || l in lines[1..];
    }
  }

  function AllLines(files: seq<Option<seq<string>>>): seq<string> {
    if files == [] then [] else (if files[0].Some? then files[0].value else []) + AllLines(files[1..])
  }

  lemma {:induction false} FilesMembers(files: seq<Option<seq<string>>>, parseNet: NetParser, e: Entry)
    requires AllLoadable(files, parseNet)
    ensures AllValid(AllLines(files), parseNet)
    ensures e in FileEntries(files, parseNet) <==> e in EntriesOf(AllLines(files), parseNet)
  {
    if files != [] {
      assert files[0] in files;
      assert forall f <- files[1..] :: f in files;
      FilesMembers(files[1..], parseNet, e);
      EntriesMembers(files[0].value, parseNet, e);
      EntriesMembers(AllLines(files[1..]), parseNet, e);
      assert forall l :: l in AllLines(files) <==> l in files[0].value || l in AllLines(files[1..]);
      EntriesMembers(AllLines(files), parseNet, e);
    }
  }

  lemma {:induction false} LinesOfFiles(files: seq<Option<seq<string>>>, l: string)
    ensures l in AllLines(files) <==> exists f <- files :: f.Some? && l in f.value
  {
    if files != [] {
      LinesOfFiles(files[1..], l);
      assert forall f :: f in files <==> f == files[0] || f in files[1..];
    }
  }

  /** Readable files with the lines of valid files are valid. */
  lemma PermutedValid(files: seq<Option<seq<string>>>, files': seq<Option<seq<string>>>, parseNet: NetParser)
    requires AllLoadable(files, parseNet)
    requires (forall f <- files' :: f.Some?) && forall l :: l in AllLines(files') ==> l in AllLines(files)
    ensures AllLoadable(files', parseNet)
  {
    forall f, l | f in files' && l in f.value ensures ValidLine(l, parseNet) {
      LinesOfFiles(files', l);
      LinesOfFiles(files, l);
    }
  }

  lemma SameMultiset<T>(xs: seq<T>, ys: seq<T>)
    requires multiset(xs) == multiset(ys)
    ensures forall x :: x in xs <==> x in ys
  {
    forall x ensures x in xs <==> x in ys {
      assert x in xs <==> x in multiset(xs);
      assert x in ys <==> x in multiset(ys);
    }
  }

  /** Permuting the lines within or across readable files changes neither that they load nor any answer. */
  lemma PermutedLines(cfg: WhitelistConfig, cfg': WhitelistConfig, w: Whitelist, w': Whitelist, parseNet: NetParser,
                      q: Query)
    requires Loadable(cfg, parseNet) && forall f <- cfg'.files :: f.Some?
    requires cfg.(files := []) == cfg'.(files := [])
    requires multiset(AllLines(cfg.files)) == multiset(AllLines(cfg'.files))
    requires Holds(w, AllEntries(cfg, parseNet)) && Holds(w', AllEntries(cfg', parseNet))
    ensures Loadable(cfg', parseNet)
    ensures Matches(w, q) == Matches(w', q)
  {
    SameMultiset(AllLines(cfg.files), AllLines(cfg'.files));
    PermutedValid(cfg.files, cfg'.files, parseNet);
    forall e ensures e in AllEntries(cfg, parseNet) <==> e in AllEntries(cfg', parseNet) {
      FilesMembers(cfg.files, parseNet, e);
      FilesMembers(cfg'.files, parseNet, e);
      EntriesMembers(AllLines(cfg.files), parseNet, e);
      EntriesMembers(AllLines(cfg'.files), parseNet, e);
    }
    OrderIndependent(w, AllEntries(cfg, parseNet), w', AllEntries(cfg', parseNet), q);
  }

  // ---------- letter case ----------

  /** The entry's names are in lower case. */
  ghost predicate LowerEntry(e: Entry) {
    match e
    case IpEntry(_) => true
    case HeloEntry(s) => Lower(s) == s
    case DomainEntry(s) => Lower(s) == s
    case PtrEntry(s) => Lower(s) == s
  }

  lemma {:induction false} EntriesLower(lines: seq<string>, parseNet: NetParser)
    ensures forall e <- EntriesOf(lines, parseNet) :: LowerEntry(e)
  {
    if lines != [] {
      EntriesLower(lines[1..], parseNet);
      LowerAll();
    }
  }

  lemma LowerAll()
    ensures forall s: string :: Lower(Lower(s)) == Lower(s)
  {
    forall s: string ensures Lower(Lower(s)) == Lower(s) {
      LowerTwice(s);
    }
  }

  lemma {:induction false} FilesLower(files: seq<Option<seq<string>>>, parseNet: NetParser)
    ensures forall e <- FileEntries(files, parseNet) :: LowerEntry(e)
  {
    if files != [] && files[0].Some? {
      EntriesLower(files[0].value, parseNet);
      FilesLower(files[1..], parseNet);
    }
  }

  /** Whatever the letter case of the configuration and the files, a loaded whitelist is in lower case. */
  lemma LoadedLower(cfg: WhitelistConfig, parseNet: NetParser, w: Whitelist)
    requires Holds(w, AllEntries(cfg, parseNet))
    ensures forall s <- w.heloNames :: Lower(s) == s
    ensures forall s <- w.domains :: Lower(s) == s
    ensures forall s <- w.domainsPtr :: Lower(s) == s
  {
    FilesLower(cfg.files, parseNet);
    LowerAll();
    forall e <- AllEntries(cfg, parseNet) ensures LowerEntry(e) {
    }
    forall s <- w.heloNames ensures Lower(s) == s { assert LowerEntry(HeloEntry(s)); }
    forall s <- w.domains ensures Lower(s) == s { assert LowerEntry(DomainEntry(s)); }
    forall s <- w.domainsPtr ensures Lower(s) == s { assert LowerEntry(PtrEntry(s)); }
  }
}
