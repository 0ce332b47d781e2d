/** Where both comparison modes get their filenames and their program to
    run: the command-line file arguments with the `-` token, the filenames
    read line by line from standard input, and the `--exec` string. */
module Inputs {
  import opened Basics
  import opened Text
  import opened Wrappers

  /** The argument that asks for filenames on standard input. */
  const Dash: string := "-"

  // ---------------------------------------------------------------------
  // Command-line file arguments

  /** The arguments the argument loop sends as filenames: all but `-`, in
      their order. */
  function NonDash(files: seq<string>): seq<string>
    decreases |files|
  {
    if |files| == 0 then []
    else (if files[0] == Dash then [] else [files[0]]) + NonDash(files[1..])
  }

  /** Exactly the arguments other than `-` are sent, and without a `-` all
      of them are. */
  lemma {:induction false} NonDashMembers(files: seq<string>)
    ensures forall x :: x in NonDash(files) <==> x in files && x != Dash
    ensures Dash !in files ==> NonDash(files) == files
    decreases |files|
  {
    if |files| > 0 {
      NonDashMembers(files[1..]);
      assert files == [files[0]] + files[1..];
    }
  }

  /** Exactly the `-` arguments are left out. */
  lemma {:induction false} NonDashCount(files: seq<string>)
    ensures |NonDash(files)| + multiset(files)[Dash] == |files|
    decreases |files|
  {
    if |files| > 0 {
      NonDashCount(files[1..]);
      CountCons(files, Dash);
      assert NonDash(files) == (if files[0] == Dash then [] else [files[0]]) + NonDash(files[1..]);
    }
  }

  /** The occurrences of `x` in a non-empty sequence: those in its tail, and
      one more when it starts with `x`. */
  lemma CountCons(xs: seq<string>, x: string)
    requires |xs| > 0
    ensures multiset(xs)[x] == multiset(xs[1..])[x] + (if xs[0] == x then 1 else 0)
  {
    assert xs == [xs[0]] + xs[1..];
    assert multiset(xs) == multiset([xs[0]]) + multiset(xs[1..]);
  }

  /** The exit status for an empty file list. */
  const NoFilesStatus: nat := 1

  /** The outcome of the argument loop: an empty file list makes the
      program exit with a status; otherwise the filenames sent, whether `-`
      was seen, and how many were sent. */
  datatype ArgScan = NoFiles(status: nat) | Scanned(sent: seq<string>, dashMode: bool, total: nat)

  /** The argument loop of both modes: `-` only switches dash mode on and is
      never sent; every other argument is sent, in order, and counted. */
  method ScanFileArgs(files: seq<string>) returns (r: ArgScan)
    ensures r.NoFiles? <==> files == []
    ensures r.NoFiles? ==> r.status == NoFilesStatus
    ensures r.Scanned? ==> r.sent == NonDash(files) && r.dashMode == (Dash in files) && r.total == |r.sent|
  {
    if |files| == 0 {
      return NoFiles(NoFilesStatus);
    }
    var dashMode := false;
    var sent: seq<string> := [];
    var total := 0;
    var i := 0;
    while i < |files|
      invariant 0 <= i <= |files|
      invariant sent + NonDash(files[i..]) == NonDash(files)
      invariant dashMode == (Dash in files[..i])
      invariant total == |sent|
    {
      var argFilename := files[i];
      ArgStep(files, i, sent);
      DashStep(files, i);
      if argFilename == Dash {
        dashMode := true;
      } else {
        sent := sent + [argFilename];
        total := total + 1;
      }
      i := i + 1;
    }
    assert files[..i] == files;
    assert NonDash(files[i..]) == [] by {
      assert files[i..] == [];
    }
    assert sent == NonDash(files);
    r := Scanned(sent, dashMode, total);
  }

  /** One turn of the argument loop: the argument at `i` is sent unless it
      is `-`. */
  lemma ArgStep(files: seq<string>, i: nat, sent: seq<string>)
    requires i < |files|
    requires sent + NonDash(files[i..]) == NonDash(files)
    ensures (sent + (if files[i] == Dash then [] else [files[i]])) + NonDash(files[i + 1..]) == NonDash(files)
  {
    var x: seq<string> := if files[i] == Dash then [] else [files[i]];
    var later := NonDash(files[i + 1..]);
    NonDashCons(files, i);
    Assoc(sent, x, later);
  }

  /** The argument at `i` followed by those after it. */
  lemma NonDashCons(files: seq<string>, i: nat)
    requires i < |files|
    ensures NonDash(files[i..]) == (if files[i] == Dash then [] else [files[i]]) + NonDash(files[i + 1..])
  {
    var rest := files[i..];
    assert rest[0] == files[i];
    assert rest[1..] == files[i + 1..];
  }

  /** One turn of the argument loop: a `-` at `i` is seen. */
  lemma DashStep(files: seq<string>, i: nat)
    requires i < |files|
    ensures Dash in files[..i + 1] <==> Dash in files[..i] || files[i] == Dash
  {
    assert files[..i + 1] == files[..i] + [files[i]];
  }

  // ---------------------------------------------------------------------
  // Filenames on standard input

  /** The length of what one `read_line` returns from the front of `s`: up
      to and including the first newline, or all of `s` when it has none. */
  function LineLength(s: string): (n: nat)
    requires |s| > 0
    ensures 0 < n <= |s|
    ensures '\n' !in s[..n - 1]
    ensures n < |s| ==> s[n - 1] == '\n'
    decreases |s|
  {
    if s[0] == '\n' || |s| == 1 then 1
    else
      var n := 1 + LineLength(s[1..]);
      assert s[..n - 1] == [s[0]] + s[1..][..n - 2];
      n
  }

  /** A well-formed line: non-empty, and a newline only at its end. */
  predicate IsLine(line: string) {
    |line| > 0 && '\n' !in line[..|line| - 1]
  }

  /** `buf[0..(len - 1)]`, as written: drops the last character of the line,
      newline or not. */
  function DropLast(line: string): (r: string)
    requires |line| > 0
    ensures |r| == |line| - 1
  {
    line[..|line| - 1]
  }

  /** The trimming the read loop intends: removes the newline that ends a
      line, and only that. */
  function StripNewline(line: string): (r: string)
    ensures IsLine(line) ==> '\n' !in r
    ensures r + (if |line| > 0 && line[|line| - 1] == '\n' then "\n" else "") == line
  {
    if |line| > 0 && line[|line| - 1] == '\n' then line[..|line| - 1] else line
  }

  /** The filenames the read loop sends for input `s`, as written: one
      per `read_line`, until the zero-length read at the end. */
  function StdinNamesAsWritten(s: string): (r: seq<string>)
    decreases |s|
  {
    if |s| == 0 then [] else [DropLast(s[..LineLength(s)])] + StdinNamesAsWritten(s[LineLength(s)..])
  }

  /** The filenames the read loop is meant to send for input `s`: one per
      line, without its newline. */
  function StdinNames(s: string): (r: seq<string>)
    decreases |s|
  {
    if |s| == 0 then [] else [StripNewline(s[..LineLength(s)])] + StdinNames(s[LineLength(s)..])
  }

  /** `s` is empty or ends with a newline. */
  predicate Terminated(s: string) {
    |s| == 0 || s[|s| - 1] == '\n'
  }

  /** The intended names are the pieces of the input split at newlines,
      except for the empty piece after a final newline: a name holds no
      newline, and a last line without a newline is kept whole. */
  lemma {:induction false} StdinNamesAreLines(s: string)
    ensures Terminated(s) ==> StdinNames(s) + [""] == Split(s, '\n')
    ensures !Terminated(s) ==> StdinNames(s) == Split(s, '\n')
    decreases |s|
  {
    if |s| > 0 {
      var n := LineLength(s);
      var rest := s[n..];
      StdinNamesAreLines(rest);
      assert StdinNames(s) == [StripNewline(s[..n])] + StdinNames(rest);
      if s[n - 1] == '\n' {
        NewlineEndedLine(s, n);
        if Terminated(s) {
          assert StdinNames(s) + [""] == [s[..n - 1]] + (StdinNames(rest) + [""]);
        }
      } else {
        LastLineUnended(s, n);
      }
    }
  }

  /** A line that ends with a newline is the first piece of the split,
      without its newline, and what follows has the same ending as `s`. */
  lemma NewlineEndedLine(s: string, n: nat)
    requires 0 < n <= |s| && '\n' !in s[..n - 1] && s[n - 1] == '\n'
    ensures Split(s, '\n') == [s[..n - 1]] + Split(s[n..], '\n')
    ensures StripNewline(s[..n]) == s[..n - 1]
    ensures Terminated(s[n..]) <==> Terminated(s)
  {
    var a := s[..n - 1];
    assert s == a + ['\n'] + s[n..];
    SplitAfterPiece(a, s[n..], '\n');
    assert s[..n][..n - 1] == a;
  }

  /** A last line without a newline is the whole remaining input and the
      only piece of its split. */
  lemma LastLineUnended(s: string, n: nat)
    requires |s| > 0 && n == LineLength(s) && s[n - 1] != '\n'
    ensures s[n..] == "" && StripNewline(s[..n]) == s
    ensures Split(s, '\n') == [s] && !Terminated(s)
  {
    assert s[..n] == s;
    SplitWhole(s, '\n');
  }

  /** What the read loop as written sends agrees with the intended names
      whenever the input is empty or ends with a newline: then every line
      it reads ends with a newline. */
  lemma {:induction false} AsWrittenAgreesWhenTerminated(s: string)
    ensures Terminated(s) ==> StdinNamesAsWritten(s) == StdinNames(s)
    decreases |s|
  {
    if |s| > 0 && Terminated(s) {
      var n := LineLength(s);
      assert s[n - 1] == '\n';
      if n < |s| {
        assert s[n..][|s[n..]| - 1] == s[|s| - 1];
      }
      AsWrittenAgreesWhenTerminated(s[n..]);
    }
  }

  /** A last name typed without a final newline loses its last character
      in the loop as written: `a.png` is read as `a.pn`. */
  lemma AsWrittenDropsLastCharacter()
    ensures StdinNamesAsWritten("a.png") == ["a.pn"]
    ensures StdinNames("a.png") == ["a.png"]
  {
    assert LineLength("a.png") == 5 by {
      assert LineLength("g") == 1;
      assert "a.png"[1..] == ".png" && ".png"[1..] == "png" && "png"[1..] == "ng" && "ng"[1..] == "g";
    }
    var s := "a.png";
    assert s[..5] == s && s[5..] == "";
    assert DropLast(s) == "a.pn";
    assert StdinNamesAsWritten(s) == [DropLast(s)] + StdinNamesAsWritten("");
    assert StdinNames(s) == [StripNewline(s)] + StdinNames("");
  }

  /** The standard-input read loop as written: reads a line until a
      zero-length read, sends it with its last character cut off, and
      counts what it sent. What it sends is the intended names whenever the
      input is empty or ends with a newline. (A read error ends the loop
      just as the end of input does.) */
  method ReadFilenames(stdin: string) returns (names: seq<string>, total: nat)
    ensures names == StdinNamesAsWritten(stdin)
    ensures Terminated(stdin) ==> names == StdinNames(stdin)
    ensures total == |names|
  {
    names := [];
    total := 0;
    var rest := stdin;
    while |rest| > 0
      invariant names + StdinNamesAsWritten(rest) == StdinNamesAsWritten(stdin)
      invariant total == |names|
      decreases |rest|
    {
      var len := LineLength(rest);
      var buf := rest[..len];
      ReadStep(names, rest, stdin);
      names := names + [DropLast(buf)];
      rest := rest[len..];
      total := total + 1;
    }
    AsWrittenAgreesWhenTerminated(stdin);
  }

  /** One turn of the read loop: the line at the front of `rest` is sent. */
  lemma ReadStep(names: seq<string>, rest: string, stdin: string)
    requires |rest| > 0
    requires names + StdinNamesAsWritten(rest) == StdinNamesAsWritten(stdin)
    ensures (names + [DropLast(rest[..LineLength(rest)])]) + StdinNamesAsWritten(rest[LineLength(rest)..]) == StdinNamesAsWritten(stdin)
  {
    var line := DropLast(rest[..LineLength(rest)]);
    assert StdinNamesAsWritten(rest) == [line] + StdinNamesAsWritten(rest[LineLength(rest)..]);
    Assoc(names, [line], StdinNamesAsWritten(rest[LineLength(rest)..]));
  }

  /** Everything sent on the filename channel: nothing when the file list
      is empty (the program exits); otherwise the non-`-` arguments, then,
      in dash mode only, the names the read loop sends. Those are the lines
      of standard input whenever it ends with a newline. */
  function FilenameStream(files: seq<string>, stdin: string): (r: Option<seq<string>>)
    ensures r.None? <==> files == []
    ensures r.Some? ==> forall x :: x in r.value && x !in StdinNamesAsWritten(stdin) ==> x in files && x != Dash
    ensures r.Some? && Dash !in files ==> r.value == files
    ensures r.Some? && Dash in files && Terminated(stdin) ==> r.value == NonDash(files) + StdinNames(stdin)
  {
    NonDashMembers(files);
    AsWrittenAgreesWhenTerminated(stdin);
    if files == [] then None
    else Some(NonDash(files) + (if Dash in files then StdinNamesAsWritten(stdin) else []))
  }

  /** With `-` as the only argument and `a.png` typed without a final
      newline, the filename sent is `a.pn`. */
  lemma StreamDropsLastCharacter()
    ensures FilenameStream([Dash], "a.png") == Some(["a.pn"])
  {
    AsWrittenDropsLastCharacter();
    var files := [Dash];
    assert files[0] == Dash && files[1..] == [];
    assert NonDash(files) == [];
    assert Dash in files;
    assert FilenameStream(files, "a.png") == Some(NonDash(files) + StdinNamesAsWritten("a.png"));
    assert NonDash(files) + ["a.pn"] == ["a.pn"];
  }

  /** Scans the arguments, then reads standard input if and only if `-`
      was among them; standard input is otherwise left unread (the sender
      is dropped). */
  method CollectFilenames(files: seq<string>, stdin: string) returns (r: Option<seq<string>>)
    ensures r == FilenameStream(files, stdin)
  {
    var scan := ScanFileArgs(files);
    if scan.NoFiles? {
      return None;
    }
    var fromStdin: seq<string> := [];
    if scan.dashMode {
      var count;
      fromStdin, count := ReadFilenames(stdin);
    }
    r := Some(scan.sent + fromStdin);
  }

  // ---------------------------------------------------------------------
  // The program to run

  /** `exec.split(" ")`, first piece and the rest: the program and its
      leading arguments. `split` always yields a first piece, so the
      `expect` on it never fails. No piece holds a space, joining them with
      spaces gives the string back, and a string without spaces is the
      program alone. */
  function ParseExec(exec: string): (r: (string, seq<string>))
    ensures ' ' !in r.0 && forall k :: 0 <= k < |r.1| ==> ' ' !in r.1[k]
    ensures Join([r.0] + r.1, ' ') == exec
    ensures ' ' !in exec ==> r == (exec, [])
  {
    var pieces := Split(exec, ' ');
    JoinSplit(exec, ' ');
    SplitPiecesLackSeparator(exec, ' ');
    assert [pieces[0]] + pieces[1..] == pieces;
    assert ' ' !in exec ==> pieces == [exec] by {
      if ' ' !in exec {
        SplitWhole(exec, ' ');
      }
    }
    (pieces[0], pieces[1..])
  }
}
