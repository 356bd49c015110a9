/** Structural line kinds of the TODO document (dist-server/index.js
    lines 66-99 and 636-639). Each regex the source uses is written out as a
    predicate over the characters of the line. */
module Classify {
  import opened Text
  import opened Outcome

  /** The pool section header, compared against the trimmed line. */
  const PoolHeader: string := "## 待办池"
  /** The text standing in for a project with no pending task. */
  const Placeholder: string := "（暂无未完成任务）"
  const Separator: string := "---"

  /** `line.trim() === '---'` */
  predicate IsSeparator(line: string) {
    Trim(line) == Separator
  }

  /** `line.startsWith('### ')` */
  predicate IsProjectHeader(line: string) {
    StartsWith(line, "### ")
  }

  /** `/\d+月\d+日/` matches with its `月` at position `j`: a digit run ends
      at `j`, and a non-empty digit run after it is closed by `日`. */
  predicate MonthDayAt(s: string, j: nat) {
    && 1 <= j < |s|
    && s[j] == '月' && IsDigit(s[j - 1])
    && var n := DigitRun(s, j + 1);
       n >= 1 && j + 1 + n < |s| && s[j + 1 + n] == '日'
  }

  /** `/\d+月\d+日/.test(s)` */
  predicate HasMonthDay(s: string) {
    exists j :: 0 <= j < |s| && MonthDayAt(s, j)
  }

  /** `line.startsWith('## ') && /\d+月\d+日/.test(line)` */
  predicate IsWeekHeader(line: string) {
    StartsWith(line, "## ") && HasMonthDay(line)
  }

  /** The five characters `- [c]` start at position `w`. */
  predicate BoxAt(line: string, w: nat, c: char) {
    && w + 5 <= |line|
    && line[w] == '-' && line[w + 1] == ' ' && line[w + 2] == '['
    && line[w + 3] == c && line[w + 4] == ']'
  }

  /** The five characters `- [c]`. */
  function BoxText(c: char): (t: string)
    ensures |t| == 5
  {
    ['-', ' ', '[', c, ']']
  }

  /** The checkbox after the leading whitespace, if the line has one:
      `^(\s*)- \[([ x])\]` matched, with the character between the brackets. */
  function Box(line: string): (b: Option<char>)
    ensures b.Some? ==> b.value == ' ' || b.value == 'x'
    ensures b.Some? ==> BoxAt(line, LeadingWs(line), b.value)
    ensures b.None? ==> !BoxAt(line, LeadingWs(line), ' ') && !BoxAt(line, LeadingWs(line), 'x')
  {
    var w := LeadingWs(line);
    if BoxAt(line, w, ' ') then Some(' ')
    else if BoxAt(line, w, 'x') then Some('x')
    else None
  }

  /** `/^(\s*)- \[[ x]\]/.test(line)` */
  predicate IsTaskLine(line: string) {
    Box(line).Some?
  }

  /** `/^(\s*)- \[x\]/.test(line)` */
  predicate IsCompletedTask(line: string) {
    Box(line) == Some('x')
  }

  /** `/^(\s*)- \[ \]/.test(line)` */
  predicate IsPendingTask(line: string) {
    Box(line) == Some(' ')
  }

  /** `line.trim() === PLACEHOLDER_TEXT` */
  predicate IsPlaceholder(line: string) {
    Trim(line) == Placeholder
  }

  /** A separator or a project header: the end of a search window inside
      the pool. Week headers are deliberately not boundaries. */
  predicate IsBlockBoundary(line: string) {
    IsSeparator(line) || IsProjectHeader(line)
  }

  /** `getIndentLevel`: every four leading whitespace characters are one
      level. */
  function IndentLevel(line: string): (n: nat)
    ensures n * 4 <= LeadingWs(line) < n * 4 + 4
  {
    LeadingWs(line) / 4
  }

  /** A checklist line is exactly one of pending and completed. */
  lemma {:induction false} TaskLineKinds(line: string)
    ensures IsTaskLine(line) <==> IsPendingTask(line) || IsCompletedTask(line)
    ensures !(IsPendingTask(line) && IsCompletedTask(line))
  {
  }

  /** A checklist line always has a non-blank character, so `search(/\S/)`
      finds its indentation. */
  lemma {:induction false} TaskLineIndent(line: string)
    requires IsTaskLine(line)
    ensures FirstNonWs(line) == LeadingWs(line)
    ensures !IsBlank(line)
  {
    var w := LeadingWs(line);
    assert line[w] == '-';
  }

  /** Whitespace, a checkbox and more text: the whitespace is the
      indentation and the box follows it. */
  lemma {:induction false} WsThenBox(p: string, rest: string, c: char)
    requires AllWs(p)
    ensures var l := p + BoxText(c) + rest;
      LeadingWs(l) == |p| && BoxAt(l, |p|, c)
  {
    var l := p + BoxText(c) + rest;
    assert l == p + (BoxText(c) + rest);
    LeadingWsConcat(p, BoxText(c) + rest);
  }

  /** The trimmed checklist line starts with its dash and checkbox. */
  lemma {:induction false} TrimmedTaskLine(line: string)
    requires IsTaskLine(line)
    ensures |Trim(line)| >= 5 && Trim(line)[0] == '-' && Trim(line)[1] == ' '
  {
    var w := LeadingWs(line);
    assert line[w] == '-' && line[w + 1] == ' ' && line[w + 4] == ']';
    TrimKeeps(line, w + 4);
    TrimShape(line);
    TrimmedFront(line, w, Trim(line));
  }

  /** A trimmed line that reaches past `w + 4` starts with the line's
      characters from `w` on. */
  lemma {:induction false} TrimmedFront(line: string, w: nat, t: string)
    requires TrimmedAt(line, w, t) && w + |t| > w + 4
    ensures |t| >= 5 && t[0] == line[w] && t[1] == line[w + 1]
  {
  }

  /** A checklist line is neither blank, a boundary, the placeholder nor the
      pool header. */
  lemma {:induction false} TaskLineIsNotBoundary(line: string)
    requires IsTaskLine(line)
    ensures !IsBlockBoundary(line) && !IsPlaceholder(line) && !IsBlank(line)
    ensures Trim(line) != PoolHeader
  {
    TrimmedTaskLine(line);
    var t := Trim(line);
    var w := LeadingWs(line);
    assert !IsBlank(line) by {
      assert line[w] == '-';
    }
    assert !IsProjectHeader(line) by {
      if w == 0 {
        assert line[0] == '-';
      } else {
        assert line[0] == line[..w][0];
      }
    }
    assert t != Separator by {
      assert t[1] != Separator[1];
    }
    assert t != Placeholder by {
      assert t[0] != Placeholder[0];
    }
    assert t != PoolHeader by {
      assert t[0] != PoolHeader[0];
    }
  }
}
