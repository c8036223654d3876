/**
 The managed block of a hosts file (internal/etchosts/etchosts.go:84-130), line by line:
 what rewriting it keeps, and what it leaves when it is repeated or undone.
*/
module EtcHosts {

  type Line = string

  /** unicode.IsSpace. */
  predicate IsSpace(c: char) {
    c in {' ', '\t', '\n', '\U{000B}', '\U{000C}', '\r', '\U{0085}', '\U{00A0}', '\U{1680}', '\U{2028}', '\U{2029}',
      '\U{202F}', '\U{205F}', '\U{3000}'}
    || '\U{2000}' <= c <= '\U{200A}'
  }

  function TrimLeft(s: string): string {
    if s != [] && IsSpace(s[0]) then TrimLeft(s[1..]) else s
  }

  function TrimRight(s: string): string {
    if s != [] && IsSpace(s[|s| - 1]) then TrimRight(s[..|s| - 1]) else s
  }

  /** strings.TrimSpace. */
  function TrimSpace(s: string): string {
    TrimLeft(TrimRight(s))
  }

  predicate HasSuffix(s: string, suffix: string) {
    |suffix| <= |s| && s[|s| - |suffix|..] == suffix
  }

  function UpToSpace(s: string): string {
    if s == [] || IsSpace(s[0]) then [] else [s[0]] + UpToSpace(s[1..])
  }

  /** strings.Fields(line)[0]. */
  function FirstField(line: Line): string {
    UpToSpace(TrimLeft(line))
  }

  function Join(names: seq<string>): string {
    if names == [] then "" else if |names| == 1 then names[0] else names[0] + " " + Join(names[1..])
  }

  function EntryLine(ip: string, names: seq<string>, banner: string): Line {
    ip + "\t" + Join(names) + "\t" + banner
  }

  /** The line ends with the banner, white space at either end aside. */
  predicate Managed(line: Line, banner: string) {
    HasSuffix(TrimSpace(line), TrimSpace(banner))
  }

  type Entries = map<string, seq<string>>

  /** writeEntryWithBanner: an entry without address or names is not written. */
  function Entry(ip: string, entries: Entries, banner: string): seq<Line> {
    if ip == "" || ip !in entries || entries[ip] == [] then [] else [EntryLine(ip, entries[ip], banner)]
  }

  datatype Scan = Scan(out: seq<Line>, written: seq<string>)

  /** The pass over the old lines: what goes out, and the addresses seen, in order. */
  function Rewrite(orig: seq<Line>, banner: string, entries: Entries): Scan {
    if orig == [] then Scan([], [])
    else
      var before, line := Rewrite(orig[..|orig| - 1], banner, entries), orig[|orig| - 1];
      if !Managed(line, banner) then Scan(before.out + [line], before.written)
      else
        var ip := FirstField(line);
        if ip in entries && ip !in before.written
        then Scan(before.out + Entry(ip, entries, banner), before.written + [ip]) else before
  }

  /** New entries, in the order the map happens to be walked. */
  function Appended(order: seq<string>, entries: Entries, banner: string): seq<Line> {
    if order == [] then []
    else Appended(order[..|order| - 1], entries, banner) + Entry(order[|order| - 1], entries, banner)
  }

  ghost predicate NoRepeats(s: seq<string>) {
    forall i, j :: 0 <= i < j < |s| ==> s[i] != s[j]
  }

  lemma AddingKeepsNoRepeats(s: seq<string>, x: string)
    requires NoRepeats(s) && x !in s
    ensures NoRepeats(s + [x])
  {
  }

  /** The addresses the pass did not meet, each once. */
  ghost predicate Rest(order: seq<string>, orig: seq<Line>, banner: string, entries: Entries) {
    NoRepeats(order) && forall ip :: ip in order <==> ip in entries && ip !in Rewrite(orig, banner, entries).written
  }

  const DEFAULT_BANNER := "# ! MANAGED AUTOMATICALLY !"

  function BannerIn(configured: string): string {
    if configured == "" then DEFAULT_BANNER else configured
  }

  /** What a write makes of the file. */
  ghost predicate Writes(orig: seq<Line>, banner: string, entries: Entries, out: seq<Line>) {
    exists order :: Rest(order, orig, banner, entries)
      && out == Rewrite(orig, banner, entries).out + Appended(order, entries, banner)
  }

  lemma OneMoreLine(orig: seq<Line>, banner: string, entries: Entries, i: nat)
    requires i < |orig|
    ensures var before, line := Rewrite(orig[..i], banner, entries), orig[i];
      var ip := FirstField(line);
      Rewrite(orig[..i + 1], banner, entries) ==
        if !Managed(line, banner) then Scan(before.out + [line], before.written)
        else if ip in entries && ip !in before.written
        then Scan(before.out + Entry(ip, entries, banner), before.written + [ip])
        else before
  {
    assert orig[..i + 1][..i] == orig[..i];
  }

  lemma OneMoreEntry(order: seq<string>, ip: string, entries: Entries, banner: string)
    ensures Appended(order + [ip], entries, banner) == Appended(order, entries, banner) + Entry(ip, entries, banner)
  {
    assert (order + [ip])[..|order|] == order;
  }

  /** The banner has to start with "#"; that it is not blank is enough here. */
  method WriteEntries(orig: seq<Line>, configured: string, entries: Entries) returns (out: seq<Line>)
    requires TrimSpace(BannerIn(configured)) != []
    ensures Writes(orig, if configured == "" then "# ! MANAGED AUTOMATICALLY !" else configured, entries, out)
  {
    var banner := BannerIn(configured);
    var scanned, written := ScanLines(orig, banner, entries);
    var added := NewEntries(entries.Keys - written, banner, entries);
    out := scanned + added;
    ghost var order :| NoRepeats(order) && (forall ip :: ip in order <==> ip in entries.Keys - written)
                       && added == Appended(order, entries, banner);
    assert Rest(order, orig, banner, entries);
  }

  /** The first loop: over the lines of the file. */
  method ScanLines(orig: seq<Line>, banner: string, entries: Entries) returns (out: seq<Line>, written: set<string>)
    ensures out == Rewrite(orig, banner, entries).out
    ensures forall ip :: ip in written <==> ip in Rewrite(orig, banner, entries).written
  {
    out, written := [], {};
    ghost var seen: seq<string> := [];
    for i := 0 to |orig|
      invariant Scan(out, seen) == Rewrite(orig[..i], banner, entries)
      invariant forall ip :: ip in written <==> ip in seen
    {
      OneMoreLine(orig, banner, entries, i);
      var line := orig[i];
      if !Managed(line, banner) {
        out := out + [line];
      } else {
        var ip := FirstField(line);
        if ip in entries && ip !in written {
          out := out + Entry(ip, entries, banner);
          written := written + {ip};
          seen := seen + [ip];
        }
      }
    }
    assert orig[..|orig|] == orig;
  }

  /** The lines of the entries for these addresses, each once, in the order of some walk. */
  ghost predicate Walked(rest: set<string>, banner: string, entries: Entries, out: seq<Line>) {
    exists order :: NoRepeats(order) && (forall ip :: ip in order <==> ip in rest)
      && out == Appended(order, entries, banner)
  }

  /** The second loop: over the entries not met, in the order the map happens to be walked. */
  method NewEntries(rest: set<string>, banner: string, entries: Entries) returns (out: seq<Line>)
    ensures Walked(rest, banner, entries, out)
  {
    ghost var order;
    var todo := rest;
    out, order := [], [];
    while todo != {}
      invariant todo <= rest
      invariant NoRepeats(order) && forall ip :: ip in order <==> ip in rest - todo
      invariant out == Appended(order, entries, banner)
    {
      var ip :| ip in todo;
      AddingKeepsNoRepeats(order, ip);
      OneMoreEntry(order, ip, entries, banner);
      todo := todo - {ip};
      order := order + [ip];
      out := out + Entry(ip, entries, banner);
    }
  }

  // --- trimming ---

  lemma {:induction false} TrimRightKeeps(x: string, y: string)
    requires TrimRight(y) != []
    ensures TrimRight(x + y) == x + TrimRight(y)
  {
    var n := |y|;
    assert (x + y)[|x + y| - 1] == y[n - 1];
    if IsSpace(y[n - 1]) {
      assert (x + y)[..|x + y| - 1] == x + y[..n - 1];
      TrimRightKeeps(x, y[..n - 1]);
    }
  }

  lemma {:induction false} TrimLeftKeepsSuffix(x: string, y: string)
    ensures HasSuffix(TrimLeft(x + y), TrimLeft(y))
  {
    if x == [] {
      assert x + y == y;
    } else if IsSpace(x[0]) {
      assert (x + y)[1..] == x[1..] + y;
      TrimLeftKeepsSuffix(x[1..], y);
    } else {
      TrimLeftIsSuffix(y);
      assert (x + y)[|x|..] == y;
      assert (x + y)[|x + y| - |TrimLeft(y)|..] == TrimLeft(y);
    }
  }

  lemma {:induction false} TrimLeftIsSuffix(y: string)
    ensures HasSuffix(y, TrimLeft(y))
  {
    if y != [] && IsSpace(y[0]) {
      TrimLeftIsSuffix(y[1..]);
    }
  }

  predicate Blank(s: string) {
    forall i :: 0 <= i < |s| ==> IsSpace(s[i])
  }

  lemma {:induction false} TrimRightSplits(s: string)
    ensures TrimRight(s) <= s && Blank(s[|TrimRight(s)|..])
    ensures TrimRight(s) != [] ==> !IsSpace(TrimRight(s)[|TrimRight(s)| - 1])
  {
    if s != [] && IsSpace(s[|s| - 1]) {
      var init, t := s[..|s| - 1], TrimRight(s);
      TrimRightSplits(init);
      assert s[|t|..] == init[|t|..] + [s[|s| - 1]];
    }
  }

  lemma {:induction false} TrimRightDrops(s: string, blank: string)
    requires Blank(blank) && s != [] && !IsSpace(s[|s| - 1])
    ensures TrimRight(s + blank) == s
  {
    if blank == [] {
      assert s + blank == s;
    } else {
      assert (s + blank)[..|s + blank| - 1] == s + blank[..|blank| - 1];
      TrimRightDrops(s, blank[..|blank| - 1]);
    }
  }

  lemma {:induction false} TrimLeftStarts(s: string)
    ensures TrimLeft(s) != [] ==> !IsSpace(TrimLeft(s)[0])
  {
    if s != [] && IsSpace(s[0]) {
      TrimLeftStarts(s[1..]);
    }
  }

  /** From k on the line is the mark and then white space. */
  predicate EndsWith(line: Line, mark: string, k: nat) {
    k + |mark| <= |line| && line[k..k + |mark|] == mark && Blank(line[k + |mark|..])
  }

  lemma TrimmedEnds(banner: string)
    requires TrimSpace(banner) != []
    ensures var mark := TrimSpace(banner); TrimLeft(mark) == mark && !IsSpace(mark[|mark| - 1])
  {
    TrimLeftStarts(TrimRight(banner));
    TrimRightSplits(banner);
    TrimLeftIsSuffix(TrimRight(banner));
  }

  lemma ManagedEndsWith(line: Line, banner: string) returns (k: nat)
    requires Managed(line, banner)
    ensures EndsWith(line, TrimSpace(banner), k)
  {
    TrimRightSplits(line);
    TrimLeftIsSuffix(TrimRight(line));
    k := |TrimRight(line)| - |TrimSpace(banner)|;
  }

  lemma EndsWithIsManaged(line: Line, banner: string, k: nat)
    requires TrimSpace(banner) != [] && EndsWith(line, TrimSpace(banner), k)
    ensures Managed(line, banner)
  {
    var before, mark := line[..k], TrimSpace(banner);
    var blank := line[k + |mark|..];
    TrimmedEnds(banner);
    assert line == before + mark + blank;
    TrimRightDrops(before + mark, blank);
    TrimLeftKeepsSuffix(before, mark);
  }

  /** A line is managed exactly when nothing but white space follows the trimmed banner in it. */
  lemma ManagedIff(line: Line, banner: string)
    requires TrimSpace(banner) != []
    ensures Managed(line, banner) <==> exists k: nat :: EndsWith(line, TrimSpace(banner), k)
  {
    if Managed(line, banner) {
      var k := ManagedEndsWith(line, banner);
    }
    if k: nat :| EndsWith(line, TrimSpace(banner), k) {
      EndsWithIsManaged(line, banner, k);
    }
  }

  /** Every line the writer makes is one it will recognise. */
  lemma EntryIsManaged(ip: string, names: seq<string>, banner: string)
    requires TrimSpace(banner) != []
    ensures Managed(EntryLine(ip, names, banner), banner)
  {
    var x := ip + "\t" + Join(names) + "\t";
    assert TrimRight(banner) != [];
    TrimRightKeeps(x, banner);
    TrimLeftKeepsSuffix(x, TrimRight(banner));
  }

  /** The address is a non-empty word. */
  predicate IsWord(ip: string) {
    ip != [] && forall i :: 0 <= i < |ip| ==> !IsSpace(ip[i])
  }

  lemma {:induction false} WordIsTaken(ip: string, rest: string)
    requires forall i :: 0 <= i < |ip| ==> !IsSpace(ip[i])
    requires rest != [] && IsSpace(rest[0])
    ensures UpToSpace(ip + rest) == ip
  {
    if ip == [] {
      assert ip + rest == rest;
    } else {
      assert (ip + rest)[1..] == ip[1..] + rest;
      WordIsTaken(ip[1..], rest);
    }
  }

  lemma EntryNamesItsAddress(ip: string, names: seq<string>, banner: string)
    requires IsWord(ip)
    ensures FirstField(EntryLine(ip, names, banner)) == ip
  {
    var rest := "\t" + Join(names) + "\t" + banner;
    assert EntryLine(ip, names, banner) == ip + rest;
    WordIsTaken(ip, rest);
  }

  // --- what a resolver reads in a line ---

  /** The line up to its comment. */
  function UpToHash(s: string): string {
    if s == [] || s[0] == '#' then [] else [s[0]] + UpToHash(s[1..])
  }

  lemma {:induction false} TrimLeftIsShorter(s: string)
    ensures |TrimLeft(s)| <= |s| && (TrimLeft(s) != [] ==> !IsSpace(TrimLeft(s)[0]))
  {
    if s != [] && IsSpace(s[0]) {
      TrimLeftIsShorter(s[1..]);
    }
  }

  lemma {:induction false} UpToSpaceIsShorter(s: string)
    ensures |UpToSpace(s)| <= |s| && (s != [] && !IsSpace(s[0]) ==> UpToSpace(s) != [])
  {
    if s != [] && !IsSpace(s[0]) {
      UpToSpaceIsShorter(s[1..]);
    }
  }

  /** strings.Fields. */
  function Fields(s: string): seq<string>
    decreases |s|
  {
    var t := TrimLeft(s);
    TrimLeftIsShorter(s);
    UpToSpaceIsShorter(t);
    if t == [] then [] else [UpToSpace(t)] + Fields(t[|UpToSpace(t)|..])
  }

  lemma SpaceIsSkipped(c: char, rest: string)
    requires IsSpace(c)
    ensures Fields([c] + rest) == Fields(rest)
  {
    assert ([c] + rest)[1..] == rest;
    assert TrimLeft([c] + rest) == TrimLeft(rest);
  }

  lemma WordIsField(w: string, c: char, rest: string)
    requires IsWord(w) && IsSpace(c)
    ensures Fields(w + [c] + rest) == [w] + Fields(rest)
  {
    var s := w + ([c] + rest);
    assert w + [c] + rest == s && s[0] == w[0];
    WordIsTaken(w, [c] + rest);
    assert TrimLeft(s) == s && s[|w|..] == [c] + rest;
    SpaceIsSkipped(c, rest);
  }

  lemma {:induction false} JoinedFields(names: seq<string>)
    requires forall n :: n in names ==> IsWord(n)
    ensures Fields(Join(names) + "\t") == names
  {
    var none: string := [];
    if names == [] {
      assert Join(names) + "\t" == ['\t'] + none;
      SpaceIsSkipped('\t', none);
    } else if |names| == 1 {
      assert names[0] in names && names[0] + "\t" == names[0] + ['\t'] + none;
      WordIsField(names[0], '\t', none);
      assert Fields(none) == [] && names == [names[0]];
    } else {
      var rest := Join(names[1..]) + "\t";
      assert names[0] in names && Join(names) + "\t" == names[0] + [' '] + rest;
      WordIsField(names[0], ' ', rest);
      JoinedFields(names[1..]);
      assert names == [names[0]] + names[1..];
    }
  }

  lemma {:induction false} CommentIsCut(x: string, comment: string)
    requires comment != [] && comment[0] == '#' && '#' !in x
    ensures UpToHash(x + comment) == x
  {
    if x == [] {
      assert x + comment == comment;
    } else {
      assert (x + comment)[1..] == x[1..] + comment;
      CommentIsCut(x[1..], comment);
    }
  }

  lemma {:induction false} JoinHasNoHash(names: seq<string>)
    requires forall n :: n in names ==> '#' !in n
    ensures '#' !in Join(names)
  {
    if |names| > 1 {
      JoinHasNoHash(names[1..]);
    }
  }

  /**
   A resolver reads back from a written line the address and all its names, in their order,
   and nothing of the banner.
  */
  lemma EntryReadsBack(ip: string, names: seq<string>, banner: string)
    requires IsWord(ip) && '#' !in ip && (forall n :: n in names ==> IsWord(n) && '#' !in n)
    requires banner != [] && banner[0] == '#'
    ensures Fields(UpToHash(EntryLine(ip, names, banner))) == [ip] + names
  {
    var rest := Join(names) + "\t";
    var x := ip + ['\t'] + rest;
    assert EntryLine(ip, names, banner) == x + banner;
    JoinHasNoHash(names);
    CommentIsCut(x, banner);
    WordIsField(ip, '\t', rest);
    JoinedFields(names);
  }

  // --- unmanaged lines ---

  function Unmanaged(lines: seq<Line>, banner: string): seq<Line> {
    if lines == [] then []
    else
      var init, line := Unmanaged(lines[..|lines| - 1], banner), lines[|lines| - 1];
      if Managed(line, banner) then init else init + [line]
  }

  lemma {:induction false} UnmanagedAppends(a: seq<Line>, b: seq<Line>, banner: string)
    ensures Unmanaged(a + b, banner) == Unmanaged(a, banner) + Unmanaged(b, banner)
  {
    if b == [] {
      assert a + b == a;
    } else {
      assert (a + b)[..|a + b| - 1] == a + b[..|b| - 1];
      UnmanagedAppends(a, b[..|b| - 1], banner);
    }
  }

  lemma EntryHasNoUnmanaged(ip: string, entries: Entries, banner: string)
    requires TrimSpace(banner) != []
    ensures Unmanaged(Entry(ip, entries, banner), banner) == []
  {
    if Entry(ip, entries, banner) != [] {
      EntryIsManaged(ip, entries[ip], banner);
    }
  }

  lemma {:induction false} RewriteKeepsUnmanaged(orig: seq<Line>, banner: string, entries: Entries)
    requires TrimSpace(banner) != []
    ensures Unmanaged(Rewrite(orig, banner, entries).out, banner) == Unmanaged(orig, banner)
  {
    if orig != [] {
      var init, line := orig[..|orig| - 1], orig[|orig| - 1];
      var before := Rewrite(init, banner, entries);
      RewriteKeepsUnmanaged(init, banner, entries);
      if !Managed(line, banner) {
        UnmanagedAppends(before.out, [line], banner);
      } else {
        UnmanagedAppends(before.out, Entry(FirstField(line), entries, banner), banner);
        EntryHasNoUnmanaged(FirstField(line), entries, banner);
      }
    }
  }

  lemma {:induction false} AppendedHasNoUnmanaged(order: seq<string>, entries: Entries, banner: string)
    requires TrimSpace(banner) != []
    ensures Unmanaged(Appended(order, entries, banner), banner) == []
  {
    if order != [] {
      var init, ip := order[..|order| - 1], order[|order| - 1];
      AppendedHasNoUnmanaged(init, entries, banner);
      UnmanagedAppends(Appended(init, entries, banner), Entry(ip, entries, banner), banner);
      EntryHasNoUnmanaged(ip, entries, banner);
    }
  }

  /** Lines without the banner stay as they are, in their order, and no others are added. */
  lemma UnmanagedLinesStay(orig: seq<Line>, banner: string, entries: Entries, out: seq<Line>)
    requires TrimSpace(banner) != [] && Writes(orig, banner, entries, out)
    ensures Unmanaged(out, banner) == Unmanaged(orig, banner)
  {
    var order :| Rest(order, orig, banner, entries)
      && out == Rewrite(orig, banner, entries).out + Appended(order, entries, banner);
    RewriteKeepsUnmanaged(orig, banner, entries);
    AppendedHasNoUnmanaged(order, entries, banner);
    UnmanagedAppends(Rewrite(orig, banner, entries).out, Appended(order, entries, banner), banner);
  }

  // --- the managed block is exactly the entries ---

  /** The line is that of an entry with names, under its address. */
  predicate IsEntryLine(line: Line, banner: string, entries: Entries) {
    var ip := FirstField(line);
    ip != "" && ip in entries && entries[ip] != [] && line == EntryLine(ip, entries[ip], banner)
  }

  ghost predicate OnlyEntries(lines: seq<Line>, banner: string, entries: Entries) {
    forall i :: 0 <= i < |lines| && Managed(lines[i], banner) ==> IsEntryLine(lines[i], banner, entries)
  }

  ghost predicate OncePerAddress(lines: seq<Line>, banner: string) {
    forall i, j :: 0 <= i < j < |lines| && Managed(lines[i], banner) && Managed(lines[j], banner) ==>
      FirstField(lines[i]) != FirstField(lines[j])
  }

  /** Every managed line is the line of an entry with names, and no two are of one address. */
  ghost predicate Clean(lines: seq<Line>, banner: string, entries: Entries) {
    OnlyEntries(lines, banner, entries) && OncePerAddress(lines, banner)
  }

  /** Some managed line is the address's. */
  ghost predicate HasManaged(lines: seq<Line>, banner: string, ip: string) {
    exists i :: 0 <= i < |lines| && Managed(lines[i], banner) && FirstField(lines[i]) == ip
  }

  lemma OneMoreManaged(lines: seq<Line>, line: Line, banner: string, ip: string)
    ensures HasManaged(lines + [line], banner, ip) <==>
      HasManaged(lines, banner, ip) || (Managed(line, banner) && FirstField(line) == ip)
  {
    var next := lines + [line];
    assert next[|lines|] == line;
    if i :| 0 <= i < |lines| && Managed(lines[i], banner) && FirstField(lines[i]) == ip {
      assert next[i] == lines[i];
    }
    if i :| 0 <= i < |next| && Managed(next[i], banner) && FirstField(next[i]) == ip {
      assert i < |lines| ==> next[i] == lines[i];
    }
  }

  lemma OneMoreIsOnlyEntries(lines: seq<Line>, line: Line, banner: string, entries: Entries)
    ensures OnlyEntries(lines + [line], banner, entries) <==>
      OnlyEntries(lines, banner, entries) && (Managed(line, banner) ==> IsEntryLine(line, banner, entries))
  {
    var next := lines + [line];
    assert next[|lines|] == line;
    if OnlyEntries(next, banner, entries) {
      forall i | 0 <= i < |lines| && Managed(lines[i], banner) ensures IsEntryLine(lines[i], banner, entries) {
        assert next[i] == lines[i];
      }
    }
  }

  lemma OneMoreIsOnce(lines: seq<Line>, line: Line, banner: string)
    ensures OncePerAddress(lines + [line], banner) <==>
      OncePerAddress(lines, banner) && (Managed(line, banner) ==> !HasManaged(lines, banner, FirstField(line)))
  {
    var next := lines + [line];
    assert next[|lines|] == line;
    if OncePerAddress(next, banner) {
      forall i, j | 0 <= i < j < |lines| && Managed(lines[i], banner) && Managed(lines[j], banner)
        ensures FirstField(lines[i]) != FirstField(lines[j])
      {
        assert next[i] == lines[i] && next[j] == lines[j];
      }
      forall i | 0 <= i < |lines| && Managed(lines[i], banner) && Managed(line, banner)
        ensures FirstField(lines[i]) != FirstField(line)
      {
        assert next[i] == lines[i];
      }
    }
    if OncePerAddress(lines, banner) && (Managed(line, banner) ==> !HasManaged(lines, banner, FirstField(line))) {
      forall i, j | 0 <= i < j < |next| && Managed(next[i], banner) && Managed(next[j], banner)
        ensures FirstField(next[i]) != FirstField(next[j])
      {
        assert next[i] == lines[i];
        assert j < |lines| ==> next[j] == lines[j];
      }
    }
  }

  /** The addresses are words; nothing is asked of the names. */
  ghost predicate Proper(entries: Entries) {
    forall ip :: ip in entries ==> IsWord(ip)
  }

  /** The address has its line among these. */
  ghost predicate HasEntry(lines: seq<Line>, ip: string, entries: Entries, banner: string) {
    ip in entries && (entries[ip] == [] || EntryLine(ip, entries[ip], banner) in lines)
  }

  /** The managed lines are those of the addresses done, each of which has its line. */
  ghost predicate Block(lines: seq<Line>, done: seq<string>, banner: string, entries: Entries) {
    && Clean(lines, banner, entries)
    && (forall ip :: HasManaged(lines, banner, ip) ==> ip in done)
    && (forall ip :: ip in done ==> HasEntry(lines, ip, entries, banner))
  }

  lemma LaterLinesKeepEntry(lines: seq<Line>, more: seq<Line>, ip: string, entries: Entries, banner: string)
    requires HasEntry(lines, ip, entries, banner)
    ensures HasEntry(lines + more, ip, entries, banner)
  {
  }

  lemma UnmanagedLineKeepsBlock(lines: seq<Line>, done: seq<string>, line: Line, banner: string, entries: Entries)
    requires Block(lines, done, banner, entries) && !Managed(line, banner)
    ensures Block(lines + [line], done, banner, entries)
  {
    OneMoreIsOnlyEntries(lines, line, banner, entries);
    OneMoreIsOnce(lines, line, banner);
    forall ip ensures HasManaged(lines + [line], banner, ip) ==> ip in done {
      OneMoreManaged(lines, line, banner, ip);
    }
    forall ip | ip in done ensures HasEntry(lines + [line], ip, entries, banner) {
      LaterLinesKeepEntry(lines, [line], ip, entries, banner);
    }
  }

  /** The line of a new address. */
  lemma NewLineKeepsBlock(lines: seq<Line>, done: seq<string>, ip: string, line: Line, banner: string, entries: Entries)
    requires Block(lines, done, banner, entries) && ip in entries && ip !in done
    requires FirstField(line) == ip && IsEntryLine(line, banner, entries)
    ensures Block(lines + [line], done + [ip], banner, entries)
  {
    OneMoreIsOnlyEntries(lines, line, banner, entries);
    OneMoreIsOnce(lines, line, banner);
    forall other ensures HasManaged(lines + [line], banner, other) ==> other in done + [ip] {
      OneMoreManaged(lines, line, banner, other);
    }
    forall other | other in done + [ip] ensures HasEntry(lines + [line], other, entries, banner) {
      if other in done {
        LaterLinesKeepEntry(lines, [line], other, entries, banner);
      } else {
        assert (lines + [line])[|lines|] == line;
      }
    }
  }

  lemma EntryKeepsBlock(lines: seq<Line>, done: seq<string>, ip: string, banner: string, entries: Entries)
    requires TrimSpace(banner) != [] && Proper(entries) && Block(lines, done, banner, entries)
    requires ip in entries && ip !in done
    ensures Block(lines + Entry(ip, entries, banner), done + [ip], banner, entries)
  {
    if entries[ip] == [] {
      assert lines + Entry(ip, entries, banner) == lines;
      assert forall other :: other in done + [ip] <==> other in done || other == ip;
    } else {
      EntryNamesItsAddress(ip, entries[ip], banner);
      NewLineKeepsBlock(lines, done, ip, EntryLine(ip, entries[ip], banner), banner, entries);
    }
  }

  lemma {:induction false} RewriteIsClean(orig: seq<Line>, banner: string, entries: Entries)
    requires TrimSpace(banner) != [] && Proper(entries)
    ensures Block(Rewrite(orig, banner, entries).out, Rewrite(orig, banner, entries).written, banner, entries)
  {
    if orig != [] {
      var init, line := orig[..|orig| - 1], orig[|orig| - 1];
      RewriteIsClean(init, banner, entries);
      var before, ip := Rewrite(init, banner, entries), FirstField(line);
      if !Managed(line, banner) {
        UnmanagedLineKeepsBlock(before.out, before.written, line, banner, entries);
      } else if ip in entries && ip !in before.written {
        EntryKeepsBlock(before.out, before.written, ip, banner, entries);
      }
    }
  }

  lemma {:induction false} AppendingIsClean(lines: seq<Line>, done: seq<string>, order: seq<string>, banner: string,
      entries: Entries)
    requires TrimSpace(banner) != [] && Proper(entries) && Block(lines, done, banner, entries)
    requires NoRepeats(order) && forall ip :: ip in order ==> ip in entries && ip !in done
    ensures Block(lines + Appended(order, entries, banner), done + order, banner, entries)
  {
    if order == [] {
      assert lines + Appended(order, entries, banner) == lines && done + order == done;
    } else {
      var init, ip := order[..|order| - 1], order[|order| - 1];
      AppendingIsClean(lines, done, init, banner, entries);
      var mid, added := lines + Appended(init, entries, banner), Entry(ip, entries, banner);
      assert ip in order && ip !in done + init;
      EntryKeepsBlock(mid, done + init, ip, banner, entries);
      assert lines + Appended(order, entries, banner) == mid + added;
      assert done + order == done + init + [ip];
    }
  }

  /**
   After a write the managed lines are exactly the entries that have names: each has its
   line, once, and there is no other.
  */
  lemma ManagedLinesAreTheEntries(orig: seq<Line>, banner: string, entries: Entries, out: seq<Line>)
    requires TrimSpace(banner) != [] && Proper(entries) && Writes(orig, banner, entries, out)
    ensures Clean(out, banner, entries) && forall ip :: ip in entries ==> HasEntry(out, ip, entries, banner)
  {
    var order :| Rest(order, orig, banner, entries)
      && out == Rewrite(orig, banner, entries).out + Appended(order, entries, banner);
    RewriteIsClean(orig, banner, entries);
    var r := Rewrite(orig, banner, entries);
    AppendingIsClean(r.out, r.written, order, banner, entries);
    forall ip | ip in entries ensures HasEntry(out, ip, entries, banner) {
      assert ip in r.written + order;
    }
  }

  lemma {:induction false} CleanIsFixed(lines: seq<Line>, banner: string, entries: Entries)
    requires Clean(lines, banner, entries)
    ensures var r := Rewrite(lines, banner, entries);
      r.out == lines && forall ip :: ip in r.written <==> HasManaged(lines, banner, ip)
  {
    if lines != [] {
      var init, line := lines[..|lines| - 1], lines[|lines| - 1];
      assert lines == init + [line];
      OneMoreIsOnlyEntries(init, line, banner, entries);
      OneMoreIsOnce(init, line, banner);
      CleanIsFixed(init, banner, entries);
      forall ip ensures ip in Rewrite(lines, banner, entries).written <==> HasManaged(lines, banner, ip) {
        OneMoreManaged(init, line, banner, ip);
      }
    }
  }

  lemma {:induction false} NothingToAppend(order: seq<string>, banner: string, entries: Entries)
    requires forall ip :: ip in order ==> Entry(ip, entries, banner) == []
    ensures Appended(order, entries, banner) == []
  {
    if order != [] {
      NothingToAppend(order[..|order| - 1], banner, entries);
    }
  }

  /** Writing the same entries again, in whatever order the map is walked, changes nothing. */
  lemma WritingIsIdempotent(orig: seq<Line>, banner: string, entries: Entries, out: seq<Line>, again: seq<Line>)
    requires TrimSpace(banner) != [] && Proper(entries)
    requires Writes(orig, banner, entries, out) && Writes(out, banner, entries, again)
    ensures again == out
  {
    ManagedLinesAreTheEntries(orig, banner, entries, out);
    CleanIsFixed(out, banner, entries);
    var r := Rewrite(out, banner, entries);
    var order :| Rest(order, out, banner, entries) && again == r.out + Appended(order, entries, banner);
    forall ip | ip in entries && entries[ip] != [] ensures ip in r.written {
      assert HasEntry(out, ip, entries, banner);
      var i :| 0 <= i < |out| && out[i] == EntryLine(ip, entries[ip], banner);
      EntryIsManaged(ip, entries[ip], banner);
      EntryNamesItsAddress(ip, entries[ip], banner);
    }
    NothingToAppend(order, banner, entries);
  }

  lemma {:induction false} RewriteToNothing(orig: seq<Line>, banner: string)
    ensures Rewrite(orig, banner, map[]).out == Unmanaged(orig, banner)
  {
    if orig != [] {
      RewriteToNothing(orig[..|orig| - 1], banner);
    }
  }

  /** Writing no entries afterwards leaves what the file held that was never managed. */
  lemma EmptyWriteUndoes(orig: seq<Line>, banner: string, entries: Entries, out: seq<Line>, bare: seq<Line>)
    requires TrimSpace(banner) != [] && Writes(orig, banner, entries, out) && Writes(out, banner, map[], bare)
    ensures bare == Unmanaged(orig, banner)
  {
    UnmanagedLinesStay(orig, banner, entries, out);
    RewriteToNothing(out, banner);
    var order :| Rest(order, out, banner, map[])
      && bare == Rewrite(out, banner, map[]).out + Appended(order, map[], banner);
    NothingToAppend(order, banner, map[]);
  }

  // --- two interfaces on one machine ---

  const BANNER_PREFIX := "#" + " ! managed automatically by cheesecloth interface "

  /** hostsFor: the banner of one interface's entries. */
  function BannerOf(iface: string): string {
    BANNER_PREFIX + iface
  }

  lemma BannerIsTrimmed(iface: string)
    requires IsWord(iface)
    ensures TrimSpace(BannerOf(iface)) == BannerOf(iface)
  {
    var b := BannerOf(iface);
    assert b[|b| - 1] == iface[|iface| - 1];
    assert b[0] == BANNER_PREFIX[0] == '#';
  }

  /**
   The entries of one interface are never taken for another's, so agents of two clusters
   leave each other's lines alone.
  */
  lemma BannersAreTheirOwn(mine: string, theirs: string, ip: string, names: seq<string>)
    requires IsWord(mine) && IsWord(theirs)
    ensures Managed(EntryLine(ip, names, BannerOf(theirs)), BannerOf(mine)) <==> mine == theirs
  {
    BannerIsTrimmed(mine);
    BannerIsTrimmed(theirs);
    EntryIsManaged(ip, names, BannerOf(theirs));
    var line := TrimSpace(EntryLine(ip, names, BannerOf(theirs)));
    if HasSuffix(line, BannerOf(mine)) {
      SuffixesAgree(line, mine, theirs);
    }
  }

  lemma SuffixesAgree(line: string, a: string, b: string)
    requires IsWord(a) && IsWord(b) && HasSuffix(line, BannerOf(a)) && HasSuffix(line, BannerOf(b))
    ensures a == b
  {
    WordEndsLine(line, a);
    WordEndsLine(line, b);
  }

  lemma WordEndsLine(line: string, a: string)
    requires IsWord(a) && HasSuffix(line, BannerOf(a))
    ensures |a| < |line| && line[|line| - |a|..] == a && line[|line| - |a| - 1] == ' '
    ensures forall k :: |line| - |a| <= k < |line| ==> !IsSpace(line[k])
  {
    var n, p := |line| - |BannerOf(a)|, |BANNER_PREFIX|;
    assert line[n..] == BannerOf(a);
    assert line[n..][p..] == a;
    assert line[n..][p - 1] == BANNER_PREFIX[p - 1];
    forall k | |line| - |a| <= k < |line| ensures !IsSpace(line[k]) {
      assert line[k] == a[k - (|line| - |a|)];
    }
  }
}
