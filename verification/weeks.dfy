/** Week blocks: reading the `## M月D日 - M月D日` headers, the place a new
    block goes, POST /api/week/add, and how the week-settle handler of
    dist-server/index.js picks (or creates) the block it settles into. */
module Weeks {
  import opened Text
  import opened Lines
  import opened Outcome
  import opened Classify
  import opened Calendar
  import Editor

  // ------------------------------------------------------------ the scan

  /** How week titles are read and written: `Calendar.MatchTitle` and
      `Calendar.WeekTitle` in the handler (the settlement passes exactly
      those). The scan, the gap fill and the lemmas below hold for any
      pair. */
  datatype TitleCodec = TitleCodec(read: string -> Option<TitleMatch>, write: int -> string)

  /** A week header whose title the pattern matches: the title, its line,
      and the first and last day the title names. */
  datatype WeekBlock = WeekBlock(title: string, lineIndex: nat, startDate: int, endDate: int)

  /** `line.slice(3).trim()` of a week header. */
  function HeaderTitle(line: string): string
    requires StartsWith(line, "## ")
  {
    Trim(line[3..])
  }

  /** The block line `i` opens, its days read in `year`, or None when the
      line is no week header or its title does not match. */
  function BlockAt(lines: seq<string>, i: nat, year: int, c: TitleCodec): (b: Option<WeekBlock>)
    requires i < |lines|
    ensures b.Some? ==> IsWeekHeader(lines[i]) && b.value.lineIndex == i && b.value.title == HeaderTitle(lines[i])
  {
    if !IsWeekHeader(lines[i]) then None
    else
      var title := HeaderTitle(lines[i]);
      match c.read(title)
      case None => None
      case Some(t) => Some(WeekBlock(title, i, DayOf(year, t.startMonth - 1, t.startDay), DayOf(year, t.endMonth - 1, t.endDay)))
  }

  /** The blocks from line `i` on, in file order. */
  function WeekBlocks(lines: seq<string>, i: nat, year: int, c: TitleCodec): (bs: seq<WeekBlock>)
    requires i <= |lines|
    ensures forall k :: 0 <= k < |bs| ==> i <= bs[k].lineIndex < |lines|
    ensures forall k, l :: 0 <= k < l < |bs| ==> bs[k].lineIndex < bs[l].lineIndex
    decreases |lines| - i
  {
    if i == |lines| then []
    else
      var rest := WeekBlocks(lines, i + 1, year, c);
      match BlockAt(lines, i, year, c)
      case None => rest
      case Some(b) => [b] + rest
  }

  /** One line of the scan: the block line `i` opens, if any, in front of
      the blocks from the next line on. */
  lemma {:induction false} WeekBlocksStep(lines: seq<string>, i: nat, year: int, c: TitleCodec) returns (j: nat)
    requires i < |lines|
    ensures j == i + 1 && j <= |lines|
    ensures BlockAt(lines, i, year, c).None? ==> WeekBlocks(lines, i, year, c) == WeekBlocks(lines, j, year, c)
    ensures BlockAt(lines, i, year, c).Some? ==>
      WeekBlocks(lines, i, year, c) == [BlockAt(lines, i, year, c).value] + WeekBlocks(lines, j, year, c)
  {
    j := i + 1;
  }

  /** Every block is what its header line reads as. */
  lemma {:induction false} WeekBlocksSound(lines: seq<string>, i: nat, year: int, c: TitleCodec, k: nat)
    requires i <= |lines| && k < |WeekBlocks(lines, i, year, c)|
    ensures var b := WeekBlocks(lines, i, year, c)[k];
      BlockAt(lines, b.lineIndex, year, c) == Some(b)
    decreases |lines| - i
  {
    var j := WeekBlocksStep(lines, i, year, c);
    var bs, rest := WeekBlocks(lines, i, year, c), WeekBlocks(lines, j, year, c);
    if BlockAt(lines, i, year, c).None? {
      WeekBlocksSound(lines, j, year, c, k);
    } else if k > 0 {
      WeekBlocksSound(lines, j, year, c, k - 1);
      ConsAt(BlockAt(lines, i, year, c).value, rest, bs, k - 1);
    }
  }

  /** No header that matches is skipped. */
  lemma {:induction false} WeekBlocksComplete(lines: seq<string>, i: nat, year: int, c: TitleCodec, j: nat)
    returns (k: nat)
    requires i <= j < |lines| && BlockAt(lines, j, year, c).Some?
    ensures k < |WeekBlocks(lines, i, year, c)| && WeekBlocks(lines, i, year, c)[k] == BlockAt(lines, j, year, c).value
  {
    k := BlockIndexOf(lines, i, year, c, j);
    WeekBlocksSound(lines, i, year, c, k);
  }

  /** Some block of the scan sits at line `j`. */
  lemma {:induction false} BlockIndexOf(lines: seq<string>, i: nat, year: int, c: TitleCodec, j: nat)
    returns (k: nat)
    requires i <= j < |lines| && BlockAt(lines, j, year, c).Some?
    ensures k < |WeekBlocks(lines, i, year, c)| && WeekBlocks(lines, i, year, c)[k].lineIndex == j
    decreases j - i
  {
    var n := WeekBlocksStep(lines, i, year, c);
    var bs, rest := WeekBlocks(lines, i, year, c), WeekBlocks(lines, n, year, c);
    if i == j {
      k := 0;
    } else {
      var k' := BlockIndexOf(lines, n, year, c, j);
      if BlockAt(lines, i, year, c).Some? {
        ConsAt(BlockAt(lines, i, year, c).value, rest, bs, k');
        k := k' + 1;
      } else {
        k := k';
      }
    }
  }

  /** The first block is the first header that matches. */
  lemma {:induction false} WeekBlocksFirst(lines: seq<string>, i: nat, year: int, c: TitleCodec, j: nat)
    requires i <= j < |lines| && BlockAt(lines, j, year, c).Some?
    requires forall k :: i <= k < j ==> BlockAt(lines, k, year, c).None?
    ensures |WeekBlocks(lines, i, year, c)| > 0 && WeekBlocks(lines, i, year, c)[0] == BlockAt(lines, j, year, c).value
    decreases j - i
  {
    if i < j {
      WeekBlocksFirst(lines, i + 1, year, c, j);
    }
  }

  // ----------------------------------------------------- where blocks go

  /** Just after the document's first separator, or the end when there is
      none. */
  function InsertPosition(lines: seq<string>): (p: nat)
    ensures p <= |lines|
    ensures (exists i :: 0 <= i < |lines| && IsSeparator(lines[i])) ==>
      0 < p && IsSeparator(lines[p - 1]) && forall i :: 0 <= i < p - 1 ==> !IsSeparator(lines[i])
    ensures (forall i :: 0 <= i < |lines| ==> !IsSeparator(lines[i])) ==> p == |lines|
  {
    var s := FirstFrom(lines, 0, IsSeparator);
    if s < |lines| then s + 1 else |lines|
  }

  /** The five lines of a new block: a blank, its separator, a blank, the
      header and a blank. */
  function NewWeekBlock(title: string): (b: seq<string>)
    ensures |b| == 5 && b[1] == Separator && b[3] == "## " + title
  {
    ["", Separator, "", "## " + title, ""]
  }

  lemma {:induction false} SeparatorIsSeparator()
    ensures IsSeparator(Separator)
  {
    TrimOfTrimmed(Separator);
  }

  /** POST /api/week/add: refuse a missing title or one whose header is
      already there (compared trimmed), else open the block after the
      first separator. */
  function AddWeek(lines: seq<string>, title: string): (r: Result<seq<string>>)
    ensures title == "" ==> r == Err(MissingField)
    ensures r == Err(WeekExists) <==>
      title != "" && exists i :: 0 <= i < |lines| && Trim(lines[i]) == "## " + title
    ensures r.Err? ==> r == Err(MissingField) || r == Err(WeekExists)
    ensures r.Ok? ==>
      var p := InsertPosition(lines);
      && |r.value| == |lines| + 5
      && r.value[..p] == lines[..p] && r.value[p..p + 5] == NewWeekBlock(title) && r.value[p + 5..] == lines[p..]
  {
    if title == "" then Err(MissingField)
    else if FirstTrimmed(lines, "## " + title) < |lines| then Err(WeekExists)
    else Ok(Insert(lines, InsertPosition(lines), NewWeekBlock(title)))
  }

  /** Adding the same week twice to the same line array: the second
      request is refused, unless the title ends in whitespace (the header
      written then never trims to itself). */
  lemma {:induction false} AddWeekTwice(lines: seq<string>, title: string)
    requires AddWeek(lines, title).Ok?
    requires TrailingWs(title) == 0
    ensures AddWeek(AddWeek(lines, title).value, title) == Err(WeekExists)
  {
    var r := AddWeek(lines, title).value;
    var p := InsertPosition(lines);
    var h := "## " + title;
    assert r[p + 3] == r[p..p + 5][3] == h;
    assert h[|h| - 1] == title[|title| - 1];
    TrimOfTrimmed(h);
  }

  /** Adding a week, saving the file and adding the same week again from
      what is read back: the second request is refused exactly when the
      title holds no newline and does not end in whitespace. */
  lemma {:induction false} AddWeekSaved(content: string, title: string)
    requires AddWeek(Split(content), title).Ok?
    ensures var again := AddWeek(Split(Join(AddWeek(Split(content), title).value)), title);
      && ('\n' !in title && TrailingWs(title) == 0 ==> again == Err(WeekExists))
      && ('\n' in title || TrailingWs(title) > 0 ==> again.Ok?)
  {
    var lines := Split(content);
    var r := AddWeek(lines, title).value;
    if '\n' !in title && TrailingWs(title) == 0 {
      WeekSavedPlain(lines, title);
      AddWeekTwice(lines, title);
    } else {
      var h := "## " + title;
      UnreadAfter("## ", title);
      var rr := Split(Join(r));
      forall i | 0 <= i < |rr| ensures Trim(rr[i]) != h {
        TrimmedNever(rr[i], h);
      }
      assert FirstTrimmed(rr, h) == |rr|;
    }
  }

  /** Without a newline in the title the saved file reads back as
      written. */
  lemma {:induction false} WeekSavedPlain(lines: seq<string>, title: string)
    requires AddWeek(lines, title).Ok? && '\n' !in title
    requires forall i :: 0 <= i < |lines| ==> '\n' !in lines[i]
    ensures Split(Join(AddWeek(lines, title).value)) == AddWeek(lines, title).value
  {
    var r := AddWeek(lines, title).value;
    var p := InsertPosition(lines);
    forall i | 0 <= i < |r| ensures '\n' !in r[i] {
      if p <= i < p + 5 {
        assert r[i] == NewWeekBlock(title)[i - p];
      } else if i < p {
        assert r[i] == lines[..p][i];
      } else {
        assert r[i] == lines[p..][i - p - 5];
      }
    }
    SplitJoin(r);
  }

  // ------------------------------------------------------------ gap fill

  /** The first days of the weeks created to reach `today`: `next`,
      `next + 7`, … while the start is not after `today`. */
  function GapStarts(next: int, today: int): (r: seq<int>)
    ensures forall k :: 0 <= k < |r| ==> r[k] == next + 7 * k && r[k] <= today
    ensures next + 7 * |r| > today
    ensures |r| == 0 <==> today < next
    ensures |r| > 0 ==> r[|r| - 1] <= today < r[|r| - 1] + 7
    decreases if next <= today then today - next + 1 else 0
  {
    if next > today then [] else [next] + GapStarts(next + 7, today)
  }

  /** The titles of the weeks created from `next` on, newest first: the
      handler pushes them oldest first and then reverses the list (see
      `GapTitlesReversed`). */
  function GapTitles(next: int, today: int, c: TitleCodec): (ts: seq<string>)
    ensures |ts| == |GapStarts(next, today)|
    ensures forall k :: 0 <= k < |ts| ==> ts[k] == c.write(next + 7 * (|ts| - 1 - k))
    decreases if next <= today then today - next + 1 else 0
  {
    if next > today then [] else GapTitles(next + 7, today, c) + [c.write(next)]
  }

  /** `weeksToCreate` before the reverse: one title per start, in order. */
  function Titles(starts: seq<int>, c: TitleCodec): (r: seq<string>)
    ensures |r| == |starts| && forall k :: 0 <= k < |r| ==> r[k] == c.write(starts[k])
  {
    if |starts| == 0 then [] else [c.write(starts[0])] + Titles(starts[1..], c)
  }

  /** The newest-first list is the pushed list reversed. */
  lemma {:induction false} GapTitlesReversed(next: int, today: int, c: TitleCodec)
    ensures GapTitles(next, today, c) == Reverse(Titles(GapStarts(next, today), c))
    decreases if next <= today then today - next + 1 else 0
  {
    if next <= today {
      var g := GapStarts(next + 7, today);
      var w := c.write(next);
      var ws := Titles(g, c);
      GapTitlesReversed(next + 7, today, c);
      assert GapStarts(next, today) == [next] + g;
      assert ([next] + g)[1..] == g;
      assert ([w] + ws)[1..] == ws;
      calc {
        GapTitles(next, today, c);
        GapTitles(next + 7, today, c) + [w];
        Reverse(ws) + [w];
        Reverse([w] + ws);
        { assert Titles([next] + g, c) == [w] + ws; }
        Reverse(Titles([next] + g, c));
      }
    } else {
      assert GapStarts(next, today) == [];
      assert Reverse(Titles([], c)) == [];
    }
  }

  /** The blocks of several titles, one after another. */
  function WeekLines(titles: seq<string>): (r: seq<string>)
    ensures |r| == 5 * |titles|
    ensures forall k, j :: 0 <= k < |titles| && 0 <= j < 5 ==> r[5 * k + j] == NewWeekBlock(titles[k])[j]
  {
    if |titles| == 0 then []
    else
      var rest := WeekLines(titles[1..]);
      NewWeekBlock(titles[0]) + rest
  }

  // ---------------------------------------------------------- resolution

  predicate Contains(b: WeekBlock, day: int) {
    b.startDate <= day <= b.endDate
  }

  /** `weekBlocks.find(w => today >= w.startDate && today <= w.endDate)`,
      as an index. */
  function FindContaining(bs: seq<WeekBlock>, day: int): (k: Option<nat>)
    ensures k.None? <==> forall i :: 0 <= i < |bs| ==> !Contains(bs[i], day)
    ensures k.Some? ==> k.value < |bs| && Contains(bs[k.value], day)
    ensures k.Some? ==> forall i :: 0 <= i < k.value ==> !Contains(bs[i], day)
  {
    if |bs| == 0 then None
    else if Contains(bs[0], day) then Some(0)
    else match FindContaining(bs[1..], day)
      case None => None
      case Some(k) => Some(k + 1)
  }

  /** The lines after step 6 of the handler, the index it takes for the
      current header, and the current title (None where the handler's
      variable stays `undefined`). */
  datatype Target = Target(lines: seq<string>, index: nat, title: Option<string>)

  /** The week opened when the document has no block: the seven days
      from today. */
  function FreshTarget(lines: seq<string>, today: int, c: TitleCodec): (t: Target)
    ensures var p := InsertPosition(lines);
      && |t.lines| == |lines| + 5 && t.index == p + 3
      && t.lines[..p] == lines[..p] && t.lines[p + 5..] == lines[p..]
      && t.lines[p + 3] == "## " + c.write(today) && t.title == Some(c.write(today))
  {
    var p := InsertPosition(lines);
    var r := Insert(lines, p, NewWeekBlock(c.write(today)));
    assert r[p + 3] == r[p..p + 5][3];
    Target(r, p + 3, Some(c.write(today)))
  }

  /** The weeks from the day after `e` up to today, newest first; the
      current title is the newest one, `undefined` when none is made. */
  function GapTarget(lines: seq<string>, e: int, today: int, c: TitleCodec): Target {
    var ts := GapTitles(e + 1, today, c);
    var p := InsertPosition(lines);
    Target(Insert(lines, p, WeekLines(ts)), p + 3, if |ts| == 0 then None else Some(ts[0]))
  }

  /** Step 6: with no block, open the week that starts today; with a block
      containing today, use the first such; otherwise fill the gap after
      the first block (the newest one, as the file lists them). */
  function Resolve(lines: seq<string>, today: int, c: TitleCodec): Target {
    var bs := WeekBlocks(lines, 0, YearOf(today), c);
    if |bs| == 0 then FreshTarget(lines, today, c)
    else match FindContaining(bs, today)
      case Some(k) => Target(lines, bs[k].lineIndex, Some(bs[k].title))
      case None => GapTarget(lines, bs[0].endDate, today, c)
  }

  /** What a template literal prints for the title. */
  function TitleString(title: Option<string>): string {
    if title.None? then "undefined" else title.value
  }

  /** Step 7: the first line that is exactly the current header, else the
      index step 6 left. */
  function Relocate(t: Target): (i: nat)
    ensures i < |t.lines| ==> i == t.index || t.lines[i] == "## " + TitleString(t.title)
    ensures forall j :: 0 <= j < |t.lines| && j < i ==> t.lines[j] != "## " + TitleString(t.title)
  {
    var h := "## " + TitleString(t.title);
    var j := FirstFrom(t.lines, 0, l => l == h);
    if j < |t.lines| then j else t.index
  }

  /** The block the settlement writes into: its lines, header index and
      end (step 8: the next separator or week header, or the end). */
  datatype Week = Week(lines: seq<string>, header: nat, end: nat, title: Option<string>)

  function CurrentWeek(lines: seq<string>, today: int, c: TitleCodec): (w: Week)
    ensures var t := Resolve(lines, today, c);
      && w.lines == t.lines && w.title == t.title && w.header == Relocate(t)
      && w.end <= |w.lines| && (w.header < |w.lines| ==> w.header < w.end)
      && (forall j :: w.header < j < w.end ==> !IsWeekHeader(w.lines[j]) && !IsSeparator(w.lines[j]))
      && (w.end < |w.lines| ==> IsWeekHeader(w.lines[w.end]) || IsSeparator(w.lines[w.end]))
  {
    var t := Resolve(lines, today, c);
    var h := Relocate(t);
    Week(t.lines, h, Editor.WeekInsertPoint(t.lines, h), t.title)
  }

  // ------------------------------------------------------------ lemmas

  /** A block already holding today is used as it is: no line changes and
      the title is that of the first block, in file order, that contains
      today. */
  lemma {:induction false} ResolveExisting(lines: seq<string>, today: int, c: TitleCodec) returns (k: nat)
    requires FindContaining(WeekBlocks(lines, 0, YearOf(today), c), today).Some?
    ensures var bs := WeekBlocks(lines, 0, YearOf(today), c);
      var t := Resolve(lines, today, c);
      && k < |bs| && Contains(bs[k], today)
      && (forall i :: 0 <= i < k ==> !Contains(bs[i], today))
      && t.lines == lines && t.index == bs[k].lineIndex && t.title == Some(bs[k].title)
      && BlockAt(lines, t.index, YearOf(today), c) == Some(bs[k])
  {
    k := FindContaining(WeekBlocks(lines, 0, YearOf(today), c), today).value;
    WeekBlocksSound(lines, 0, YearOf(today), c, k);
  }

  /** The first day of the newest created week. */
  function NewestStart(e: int, today: int): int {
    e + 1 + 7 * (|GapStarts(e + 1, today)| - 1)
  }

  /** With today after the first block's end, the current week is the
      newest one created, it starts a multiple of seven days after `e`, and
      it contains today. */
  lemma {:induction false} GapNewest(lines: seq<string>, e: int, today: int, c: TitleCodec)
    requires today > e
    ensures var s := NewestStart(e, today);
      && GapTarget(lines, e, today, c).title == Some(c.write(s))
      && e < s <= today <= s + 6 && (s - e - 1) % 7 == 0
  {
    var g := GapStarts(e + 1, today);
    assert g[|g| - 1] == NewestStart(e, today);
  }

  /** With today not after the first block's end, nothing is created and
      the title stays `undefined`. */
  lemma {:induction false} GapEmpty(lines: seq<string>, e: int, today: int, c: TitleCodec)
    requires today <= e
    ensures GapTarget(lines, e, today, c).title.None?
    ensures GapTarget(lines, e, today, c).lines == lines
  {
    var p := InsertPosition(lines);
    assert WeekLines([]) == [];
    assert Insert(lines, p, []) == lines;
  }

  /** The created blocks sit right after the insert position, newest
      first: block `k` is opened by a separator and its header names the
      `k`-th gap title, the week starting `7 * (n - 1 - k)` days after the
      oldest of the `n` created. */
  lemma {:induction false} GapLayout(lines: seq<string>, e: int, today: int, c: TitleCodec, k: nat)
    requires k < |GapTitles(e + 1, today, c)|
    ensures var p := InsertPosition(lines);
      var t := GapTarget(lines, e, today, c);
      && IsSeparator(t.lines[p + 5 * k + 1])
      && t.lines[p + 5 * k + 3] == "## " + GapTitles(e + 1, today, c)[k]
  {
    var ts := GapTitles(e + 1, today, c);
    var p := InsertPosition(lines);
    assert GapTarget(lines, e, today, c).lines == Insert(lines, p, WeekLines(ts));
    InsertedBlock(lines, p, ts, k);
    SeparatorIsSeparator();
  }

  /** Block `k` of the blocks inserted at `p`. */
  lemma {:induction false} InsertedBlock(lines: seq<string>, p: nat, ts: seq<string>, k: nat)
    requires p <= |lines| && k < |ts|
    ensures var r := Insert(lines, p, WeekLines(ts));
      r[p + 5 * k + 1] == Separator && r[p + 5 * k + 3] == "## " + ts[k]
  {
    var w := WeekLines(ts);
    InsertAt(lines, p, w, 5 * k + 3);
    InsertAt(lines, p, w, 5 * k + 1);
    assert w[5 * k + 3] == NewWeekBlock(ts[k])[3];
    assert w[5 * k + 1] == NewWeekBlock(ts[k])[1];
  }

  /** Settling on a week only adds lines: every line of the document is in
      the lines the week is read from. */
  lemma {:induction false} CurrentWeekKeeps(lines: seq<string>, today: int, c: TitleCodec, l: string)
    requires l in lines
    ensures l in CurrentWeek(lines, today, c).lines
  {
    var bs := WeekBlocks(lines, 0, YearOf(today), c);
    var t := Resolve(lines, today, c);
    var p := InsertPosition(lines);
    if |bs| == 0 {
      assert t == FreshTarget(lines, today, c);
      OpenedKeeps(lines, t.lines, p, 5, l);
    } else if FindContaining(bs, today).None? {
      var n := |GapStarts(bs[0].endDate + 1, today)|;
      assert t == GapTarget(lines, bs[0].endDate, today, c);
      GapKeeps(lines, bs[0].endDate, today, c);
      OpenedKeeps(lines, t.lines, p, 5 * n, l);
    }
  }

  /** Lines opened up at `p` leave every old line in place or `m` further
      on. */
  lemma {:induction false} OpenedKeeps(lines: seq<string>, r: seq<string>, p: nat, m: nat, l: string)
    requires p <= |lines| && |r| == |lines| + m && l in lines
    requires r[..p] == lines[..p] && r[p + m..] == lines[p..]
    ensures l in r
  {
    var k :| 0 <= k < |lines| && lines[k] == l;
    if k < p {
      assert r[..p][k] == l;
    } else {
      assert r[p + m..][k - p] == l;
    }
  }

  /** The gap fill moves no line of the document: everything before the
      insert position stays, everything after it follows the new blocks. */
  lemma {:induction false} GapKeeps(lines: seq<string>, e: int, today: int, c: TitleCodec)
    ensures var n := |GapStarts(e + 1, today)|;
      var p := InsertPosition(lines);
      var t := GapTarget(lines, e, today, c);
      && |t.lines| == |lines| + 5 * n
      && t.lines[..p] == lines[..p] && t.lines[p + 5 * n..] == lines[p..]
  {
  }
}
