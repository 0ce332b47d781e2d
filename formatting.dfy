/** `print_fmt`: the text printed for one group of filenames in each of the
    three output formats. */
module Formatting {
  import opened Basics
  import opened Wrappers
  import opened Text

  datatype Fmt = Regular | Quote | Null

  /** `s.replace("\"", "\\\"")`: a backslash before every double quote;
      backslashes themselves are left alone. */
  function Escape(s: string): (r: string)
    ensures '"' !in s ==> r == s
    ensures |s| > 0 ==> |r| > 0 && r[0] == (if s[0] == '"' then '\\' else s[0])
    decreases |s|
  {
    if |s| == 0 then ""
    else (if s[0] == '"' then "\\\"" else [s[0]]) + Escape(s[1..])
  }

  /** `format!("\"{}\"", …)`: one name, escaped and in double quotes. */
  function QuoteName(s: string): (r: string)
    ensures |r| >= 2 && r[0] == '"' && r[|r| - 1] == '"'
  {
    "\"" + Escape(s) + "\""
  }

  function QuoteAll(group: seq<string>): (r: seq<string>)
    ensures |r| == |group|
    ensures forall k :: 0 <= k < |group| ==> r[k] == QuoteName(group[k])
  {
    seq(|group|, k requires 0 <= k < |group| => QuoteName(group[k]))
  }

  /** The `Null` loop: every name followed by one NUL. */
  function NulTerminated(group: seq<string>): (r: string)
    ensures |group| > 0 ==> |r| > 0 && r[|r| - 1] == '\0'
    decreases |group|
  {
    if |group| == 0 then "" else group[0] + "\0" + NulTerminated(group[1..])
  }

  /** Everything `print_fmt` writes for `group`. The two line formats end
      with one newline; the `Null` format prints no newline and ends with a
      NUL, so an empty group prints a NUL alone. */
  function PrintFmt(group: seq<string>, fmt: Fmt): (out: string)
    ensures fmt != Null ==> |out| > 0 && out[|out| - 1] == '\n'
    ensures fmt == Null ==> |out| > 0 && out[|out| - 1] == '\0'
    ensures group == [] ==> out == (if fmt == Null then "\0" else "\n")
  {
    match fmt
    case Regular => Join(group, ' ') + "\n"
    case Quote => Join(QuoteAll(group), ' ') + "\n"
    case Null => NulTerminated(group) + "\0"
  }

  // ---------------------------------------------------------------------
  // Reading the output back

  /** Reads a quoted name after its opening quote: `\"` stands for a quote
      and the first other `"` closes the name. Gives the name and what
      follows the closing quote, or `None` when no quote closes it. */
  function ReadQuoted(s: string): (r: Option<(string, string)>)
    ensures r.Some? ==> |r.value.1| < |s|
    decreases |s|
  {
    if |s| == 0 then None
    else if s[0] == '"' then Some(("", s[1..]))
    else if s[0] == '\\' && |s| >= 2 && s[1] == '"' then
      match ReadQuoted(s[2..])
      case None => None
      case Some(p) => Some(("\"" + p.0, p.1))
    else
      match ReadQuoted(s[1..])
      case None => None
      case Some(p) => Some(([s[0]] + p.0, p.1))
  }

  /** Reads a `Quote` line (without its newline): quoted names separated
      by single spaces. */
  function ReadQuotedItems(s: string): (r: Option<seq<string>>)
    decreases |s|
  {
    if |s| == 0 || s[0] != '"' then None
    else
      match ReadQuoted(s[1..])
      case None => None
      case Some(p) =>
        if p.1 == "" then Some([p.0])
        else if p.1[0] != ' ' then None
        else
          match ReadQuotedItems(p.1[1..])
          case None => None
          case Some(names) => Some([p.0] + names)
  }

  function ReadQuoteLine(line: string): (r: Option<seq<string>>)
  {
    if line == "" then Some([]) else ReadQuotedItems(line)
  }

  predicate EndsInBackslash(s: string) {
    |s| > 0 && s[|s| - 1] == '\\'
  }

  /** An escaped name followed by the closing quote reads back as the name,
      unless the name ends in a backslash: that backslash and the closing
      quote then read as an escaped quote. */
  lemma {:induction false} ReadEscaped(name: string, rest: string)
    requires !EndsInBackslash(name)
    ensures ReadQuoted(Escape(name) + "\"" + rest) == Some((name, rest))
    decreases |name|
  {
    if |name| == 0 {
      ReadClosing(rest);
    } else {
      var tail := name[1..];
      var t := Escape(tail) + "\"" + rest;
      TailNoBackslash(name);
      EscapeCons(name, rest);
      ReadEscaped(tail, rest);
      if name[0] == '"' {
        ReadEscapedQuote(t, tail, rest);
      } else {
        if name[0] == '\\' {
          AfterHeadNoQuote(name, rest);
        }
        ReadPlain(name[0], t, tail, rest);
      }
      assert [name[0]] + tail == name;
    }
  }

  /** The closing quote ends an empty name. */
  lemma ReadClosing(rest: string)
    ensures ReadQuoted(Escape("") + "\"" + rest) == Some(("", rest))
  {
    var s := "\"" + rest;
    assert Escape("") + "\"" + rest == s && s[1..] == rest;
  }

  /** The rest of a name that does not end in a backslash does not
      either. */
  lemma TailNoBackslash(name: string)
    requires |name| > 0 && !EndsInBackslash(name)
    ensures !EndsInBackslash(name[1..])
  {
    var tail := name[1..];
    if |tail| > 0 {
      assert tail[|tail| - 1] == name[|name| - 1];
    }
  }

  /** The escaped form of a non-empty name: its first character, escaped,
      then the escaped rest. */
  lemma EscapeCons(name: string, rest: string)
    requires |name| > 0
    ensures Escape(name) + "\"" + rest
      == (if name[0] == '"' then "\\\"" else [name[0]]) + (Escape(name[1..]) + "\"" + rest)
  {
    var head: string := if name[0] == '"' then "\\\"" else [name[0]];
    var e := Escape(name[1..]);
    assert Escape(name) == head + e;
    Assoc(head + e, "\"", rest);
    Assoc(head, e, "\"" + rest);
    Assoc(e, "\"", rest);
  }

  /** What follows a name's leading character in its quoted form is no
      quote, so a leading backslash is kept as it is. */
  lemma AfterHeadNoQuote(name: string, rest: string)
    requires |name| > 1
    ensures var t := Escape(name[1..]) + "\"" + rest; |t| > 0 && t[0] != '"'
  {
    var e := Escape(name[1..]);
    assert (e + "\"" + rest)[0] == e[0];
  }

  /** An escaped quote reads as a quote. */
  lemma ReadEscapedQuote(t: string, tail: string, rest: string)
    requires ReadQuoted(t) == Some((tail, rest))
    ensures ReadQuoted("\\\"" + t) == Some(("\"" + tail, rest))
  {
    var s := "\\\"" + t;
    assert s[0] == '\\' && s[1] == '"' && s[2..] == t;
  }

  /** Any other character reads as itself, provided a backslash is not
      followed by a quote. */
  lemma ReadPlain(c: char, t: string, tail: string, rest: string)
    requires c != '"'
    requires c == '\\' ==> |t| > 0 && t[0] != '"'
    requires ReadQuoted(t) == Some((tail, rest))
    ensures ReadQuoted([c] + t) == Some(([c] + tail, rest))
  {
    var s := [c] + t;
    assert s[0] == c && s[1..] == t;
    assert c == '\\' ==> s[1] == t[0];
  }

  /** The `Quote` line reads back as the group, provided no name ends in a
      backslash. */
  lemma {:induction false} QuoteRoundTrip(group: seq<string>)
    requires forall k :: 0 <= k < |group| ==> !EndsInBackslash(group[k])
    ensures var out := PrintFmt(group, Quote); ReadQuoteLine(out[..|out| - 1]) == Some(group)
  {
    var out := PrintFmt(group, Quote);
    assert out[..|out| - 1] == Join(QuoteAll(group), ' ');
    if |group| > 0 {
      QuotedItemsRoundTrip(group);
      assert |Join(QuoteAll(group), ' ')| > 0 by {
        assert |QuoteAll(group)| >= 1 && |QuoteAll(group)[0]| >= 2;
        JoinStartsWithFirst(QuoteAll(group), ' ');
      }
    }
  }

  lemma {:induction false} QuotedItemsRoundTrip(group: seq<string>)
    requires |group| > 0
    requires forall k :: 0 <= k < |group| ==> !EndsInBackslash(group[k])
    ensures ReadQuotedItems(Join(QuoteAll(group), ' ')) == Some(group)
    decreases |group|
  {
    var xs := QuoteAll(group);
    if |group| == 1 {
      ReadOneQuoted(group[0]);
      assert group == [group[0]];
    } else {
      assert xs[1..] == QuoteAll(group[1..]);
      QuotedItemsRoundTrip(group[1..]);
      ReadQuotedThenMore(group[0], Join(xs[1..], ' '), group[1..]);
      assert [group[0]] + group[1..] == group;
    }
  }

  /** A line of one quoted name reads back as that name. */
  lemma ReadOneQuoted(name: string)
    requires !EndsInBackslash(name)
    ensures ReadQuotedItems(QuoteName(name)) == Some([name])
  {
    var s := QuoteName(name);
    var body := Escape(name) + "\"" + "";
    assert s == "\"" + body;
    assert s[1..] == body;
    ReadEscaped(name, "");
    ItemsLast(s, name);
  }

  /** A quoted name, a space and a readable rest read back as the name
      followed by the rest's names. */
  lemma ReadQuotedThenMore(name: string, more: string, names: seq<string>)
    requires !EndsInBackslash(name)
    requires ReadQuotedItems(more) == Some(names)
    ensures ReadQuotedItems(QuoteName(name) + [' '] + more) == Some([name] + names)
  {
    var s := QuoteName(name) + [' '] + more;
    var after := [' '] + more;
    var body := Escape(name) + "\"" + after;
    assert s == "\"" + body;
    assert s[1..] == body;
    ReadEscaped(name, after);
    assert after[1..] == more;
    ItemsStep(s, name, after, names);
  }

  /** The last name of a `Quote` line is read. */
  lemma ItemsLast(s: string, name: string)
    requires |s| > 0 && s[0] == '"'
    requires ReadQuoted(s[1..]) == Some((name, ""))
    ensures ReadQuotedItems(s) == Some([name])
  {
  }

  /** One name of a `Quote` line is read, then the rest after the space. */
  lemma ItemsStep(s: string, name: string, after: string, names: seq<string>)
    requires |s| > 0 && s[0] == '"'
    requires ReadQuoted(s[1..]) == Some((name, after))
    requires |after| > 0 && after[0] == ' '
    requires ReadQuotedItems(after[1..]) == Some(names)
    ensures ReadQuotedItems(s) == Some([name] + names)
  {
  }

  lemma JoinStartsWithFirst(xs: seq<string>, sep: char)
    requires |xs| >= 1
    ensures |Join(xs, sep)| >= |xs[0]|
  {
  }

  /** A name ending in a backslash does not read back: `a\` prints as
      `"a\"`, whose closing quote reads as an escaped one. */
  lemma TrailingBackslashUnreadable()
    ensures PrintFmt(["a\\"], Quote) == "\"a\\\"\n"
    ensures ReadQuoteLine("\"a\\\"") == None
  {
    assert Escape("a\\") == "a\\" by {
      assert "a\\"[1..] == "\\";
      assert "\\"[1..] == "";
    }
    assert QuoteName("a\\") == "\"a\\\"";
    assert QuoteAll(["a\\"]) == ["\"a\\\""];
    var s := "\"a\\\"";
    assert s[1..] == "a\\\"" && s[1..][1..] == "\\\"" && s[1..][1..][2..] == "";
  }

  /** A `Regular` line splits at spaces back into the group, provided no
      name contains a space and the group is not empty. */
  lemma RegularRoundTrip(group: seq<string>)
    requires |group| > 0
    requires forall k :: 0 <= k < |group| ==> ' ' !in group[k]
    ensures var out := PrintFmt(group, Regular); Split(out[..|out| - 1], ' ') == group
  {
    var out := PrintFmt(group, Regular);
    assert out[..|out| - 1] == Join(group, ' ');
    SplitJoin(group, ' ');
  }

  /** The `Null` output is the names and two empty pieces joined by NULs:
      one NUL ends each name and one more ends the group. */
  lemma {:induction false} NullIsJoin(group: seq<string>)
    ensures PrintFmt(group, Null) == Join(group + ["", ""], '\0')
    decreases |group|
  {
    if |group| == 0 {
      assert Join(["", ""], '\0') == "" + "\0" + Join([""], '\0');
    } else {
      NullIsJoin(group[1..]);
      var all := group + ["", ""];
      assert all[1..] == group[1..] + ["", ""];
      assert Join(all, '\0') == group[0] + "\0" + Join(all[1..], '\0');
    }
  }

  /** Splitting the `Null` output at NULs gives back the names, then the
      two empty pieces after the last two NULs, provided no name holds a
      NUL. */
  lemma NullRoundTrip(group: seq<string>)
    requires forall k :: 0 <= k < |group| ==> '\0' !in group[k]
    ensures Split(PrintFmt(group, Null), '\0') == group + ["", ""]
  {
    NullIsJoin(group);
    SplitJoin(group + ["", ""], '\0');
  }

  /** Escaping adds only backslashes and quotes, so any other character
      is in the escaped name exactly when it is in the name. */
  lemma {:induction false} EscapeKeepsOthers(s: string, c: char)
    requires c != '"' && c != '\\'
    ensures c in Escape(s) <==> c in s
    decreases |s|
  {
    if |s| > 0 {
      EscapeKeepsOthers(s[1..], c);
      assert s == [s[0]] + s[1..];
      var head: string := if s[0] == '"' then "\\\"" else [s[0]];
      assert Escape(s) == head + Escape(s[1..]);
    }
  }

  /** The two line formats print one line per group: when no name holds a
      newline, the only newline is the final one. */
  lemma LineFormatsOneLine(group: seq<string>, fmt: Fmt)
    requires fmt != Null
    requires forall k :: 0 <= k < |group| ==> '\n' !in group[k]
    ensures var out := PrintFmt(group, fmt); '\n' !in out[..|out| - 1]
  {
    var out := PrintFmt(group, fmt);
    if fmt == Regular {
      assert out[..|out| - 1] == Join(group, ' ');
      JoinChars(group, ' ', '\n');
    } else {
      var quoted := QuoteAll(group);
      forall k | 0 <= k < |quoted|
        ensures '\n' !in quoted[k]
      {
        EscapeKeepsOthers(group[k], '\n');
        assert quoted[k] == "\"" + Escape(group[k]) + "\"";
      }
      assert out[..|out| - 1] == Join(quoted, ' ');
      JoinChars(quoted, ' ', '\n');
    }
  }
}
