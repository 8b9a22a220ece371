/** Lowering of `printf` in the IR builder: every argument expression is
    lowered first, then the format string (with `\n` turned into a newline
    and the quotes removed) is split at each `%d`; each piece becomes one
    `putch` call per character, followed by one `putint` call that consumes
    the next argument while any remain. */
module Printf {

  /** What the lowering emits: the lowered argument i, or a library call. */
  datatype IrStep = LowerArg(i: nat) | Putch(ch: char) | Putint(arg: nat)

  // ---------------------------------------------------------------------
  // The format string

  /** `replace("\\n", "\n")`: each backslash-n pair, left to right, becomes a
      newline. */
  function UnescapeNewlines(s: string): (r: string)
    ensures |r| <= |s|
    decreases |s|
  {
    if |s| >= 2 && s[0] == '\\' && s[1] == 'n' then "\n" + UnescapeNewlines(s[2..])
    else if |s| == 0 then ""
    else [s[0]] + UnescapeNewlines(s[1..])
  }

  /** `replace("\"", "")` */
  function DropQuotes(s: string): (r: string)
    ensures forall k :: 0 <= k < |r| ==> r[k] != '"'
    ensures |r| <= |s|
    decreases |s|
  {
    if |s| == 0 then "" else (if s[0] == '"' then "" else [s[0]]) + DropQuotes(s[1..])
  }

  function Normalize(format: string): string
  {
    DropQuotes(UnescapeNewlines(format))
  }

  // ---------------------------------------------------------------------
  // Splitting at `%d`

  predicate MarkAt(s: string, i: int)
  {
    0 <= i && i + 1 < |s| && s[i] == '%' && s[i + 1] == 'd'
  }

  /** Number of `%d` markers, found left to right without overlap. */
  function Marks(s: string): nat
    decreases |s|
  {
    if |s| == 0 then 0
    else if MarkAt(s, 0) then 1 + Marks(s[2..])
    else Marks(s[1..])
  }

  /** Every piece between markers, empty ones included: Java's
      `split("%d", -1)`. */
  function SplitAll(s: string): (parts: seq<string>)
    ensures |parts| >= 1
    decreases |s|
  {
    if |s| == 0 then [""]
    else if MarkAt(s, 0) then [""] + SplitAll(s[2..])
    else
      var r := SplitAll(s[1..]);
      [[s[0]] + r[0]] + r[1..]
  }

  /** The pieces glued back with `%d` between them. */
  function Join(parts: seq<string>): string
    requires |parts| >= 1
    decreases |parts|
  {
    if |parts| == 1 then parts[0] else parts[0] + "%d" + Join(parts[1..])
  }

  /** Splitting loses nothing: gluing the pieces gives the string back. */
  lemma {:induction false} JoinSplit(s: string)
    ensures Join(SplitAll(s)) == s
    decreases |s|
  {
    if |s| > 0 {
      if MarkAt(s, 0) {
        JoinSplit(s[2..]);
        var r := SplitAll(s[2..]);
        assert ([""] + r)[1..] == r;
        assert s == "%d" + s[2..];
      } else {
        JoinSplit(s[1..]);
        var r := SplitAll(s[1..]);
        var parts := [[s[0]] + r[0]] + r[1..];
        if |r| == 1 {
          assert Join(parts) == [s[0]] + r[0];
        } else {
          assert parts[1..] == r[1..];
          assert Join(r) == r[0] + "%d" + Join(r[1..]);
        }
        assert s == [s[0]] + s[1..];
      }
    }
  }

  /** There is one more piece than there are markers. */
  lemma {:induction false} SplitCount(s: string)
    ensures |SplitAll(s)| == Marks(s) + 1
    decreases |s|
  {
    if |s| > 0 {
      if MarkAt(s, 0) {
        SplitCount(s[2..]);
      } else {
        SplitCount(s[1..]);
      }
    }
  }

  function DropTrailingEmpty(parts: seq<string>): (r: seq<string>)
    ensures |r| <= |parts| && r == parts[..|r|]
    ensures |r| > 0 ==> r[|r| - 1] != ""
    decreases |parts|
  {
    if |parts| > 0 && parts[|parts| - 1] == "" then DropTrailingEmpty(parts[..|parts| - 1]) else parts
  }

  /** Java's `split("%d")`: the whole string when there is no marker,
      otherwise the pieces with the trailing empty ones removed. */
  function JavaSplit(s: string): seq<string>
  {
    if Marks(s) == 0 then [s] else DropTrailingEmpty(SplitAll(s))
  }

  // ---------------------------------------------------------------------
  // Emission

  function Chars(p: string): (r: seq<IrStep>)
    ensures |r| == |p|
    decreases |p|
  {
    if |p| == 0 then [] else [Putch(p[0])] + Chars(p[1..])
  }

  /** The calls for the pieces, consuming the arguments in order. */
  function Emit(parts: seq<string>, args: seq<nat>): seq<IrStep>
    decreases |parts|, 1
  {
    if |parts| == 0 then [] else Chars(parts[0]) + AfterPiece(parts[1..], args)
  }

  /** After a piece: `putint` of the next argument if one remains. */
  function AfterPiece(rest: seq<string>, args: seq<nat>): seq<IrStep>
    decreases |rest| + 1, 0
  {
    if |args| > 0 then [Putint(args[0])] + Emit(rest, args[1..]) else Emit(rest, args)
  }

  /** The characters printed, in order. */
  function Text(steps: seq<IrStep>): string
    decreases |steps|
  {
    if |steps| == 0 then ""
    else (if steps[0].Putch? then [steps[0].ch] else "") + Text(steps[1..])
  }

  /** The arguments printed, in order. */
  function Ints(steps: seq<IrStep>): seq<nat>
    decreases |steps|
  {
    if |steps| == 0 then []
    else (if steps[0].Putint? then [steps[0].arg] else []) + Ints(steps[1..])
  }

  function Concat(parts: seq<string>): string
    decreases |parts|
  {
    if |parts| == 0 then "" else parts[0] + Concat(parts[1..])
  }

  lemma {:induction false} TextAppend(a: seq<IrStep>, b: seq<IrStep>)
    ensures Text(a + b) == Text(a) + Text(b)
    ensures Ints(a + b) == Ints(a) + Ints(b)
    decreases |a|
  {
    if |a| > 0 {
      assert (a + b)[1..] == a[1..] + b;
      TextAppend(a[1..], b);
    } else {
      assert a + b == b;
    }
  }

  lemma {:induction false} CharsText(p: string)
    ensures Text(Chars(p)) == p && Ints(Chars(p)) == []
    decreases |p|
  {
    if |p| > 0 {
      TextAppend([Putch(p[0])], Chars(p[1..]));
      CharsText(p[1..]);
    }
  }

  function Min(a: int, b: int): int { if a < b then a else b }

  /** The emitted calls print every piece's characters in order, and the
      first min(#pieces, #arguments) arguments, in order. */
  lemma {:induction false} EmitPrints(parts: seq<string>, args: seq<nat>)
    ensures Text(Emit(parts, args)) == Concat(parts)
    ensures Ints(Emit(parts, args)) == args[..Min(|parts|, |args|)]
    decreases |parts|
  {
    if |parts| > 0 {
      var rest := parts[1..];
      CharsText(parts[0]);
      if |args| > 0 {
        EmitPrints(rest, args[1..]);
        TextAppend([Putint(args[0])], Emit(rest, args[1..]));
        TextAppend(Chars(parts[0]), AfterPiece(rest, args));
        assert args[..Min(|parts|, |args|)] == [args[0]] + args[1..][..Min(|rest|, |args| - 1)];
      } else {
        EmitPrints(rest, args);
        TextAppend(Chars(parts[0]), AfterPiece(rest, args));
      }
    }
  }

  /** The lowering as the source writes it: all arguments first, then the
      calls for the pieces of Java's `split("%d")`. */
  function LowerPrintfAsWritten(format: string, n: nat): (r: seq<IrStep>)
    ensures |r| >= n && forall i :: 0 <= i < n ==> r[i] == LowerArg(i)
  {
    LowerArgs(n) + Emit(JavaSplit(Normalize(format)), Range(n))
  }

  /** The lowering with every piece kept (`split("%d", -1)`), so that each
      marker consumes an argument. */
  function LowerPrintf(format: string, n: nat): (r: seq<IrStep>)
    ensures |r| >= n && forall i :: 0 <= i < n ==> r[i] == LowerArg(i)
  {
    LowerArgs(n) + Emit(SplitAll(Normalize(format)), Range(n))
  }

  function LowerArgs(n: nat): (r: seq<IrStep>)
    ensures |r| == n && forall i :: 0 <= i < n ==> r[i] == LowerArg(i)
  {
    seq(n, i requires 0 <= i < n => LowerArg(i))
  }

  function Range(n: nat): (r: seq<nat>)
    ensures |r| == n && forall i :: 0 <= i < n ==> r[i] == i
  {
    seq(n, i requires 0 <= i < n => i)
  }

  /** No emitted call is the lowering of an argument, so every argument is
      lowered before the first call. */
  lemma {:induction false} EmitOnlyCalls(parts: seq<string>, args: seq<nat>)
    ensures forall k :: 0 <= k < |Emit(parts, args)| ==> !Emit(parts, args)[k].LowerArg?
    decreases |parts|
  {
    if |parts| > 0 {
      CharsOnlyCalls(parts[0]);
      var head := Chars(parts[0]);
      var tail := AfterPiece(parts[1..], args);
      if |args| > 0 {
        EmitOnlyCalls(parts[1..], args[1..]);
        var e := Emit(parts[1..], args[1..]);
        assert tail == [Putint(args[0])] + e;
        assert forall k :: 0 <= k < |tail| ==> !tail[k].LowerArg? by {
          forall k | 0 <= k < |tail| ensures !tail[k].LowerArg? {
            if k > 0 { assert tail[k] == e[k - 1]; }
          }
        }
      } else {
        EmitOnlyCalls(parts[1..], args);
        assert tail == Emit(parts[1..], args);
      }
      assert Emit(parts, args) == head + tail;
      forall k | 0 <= k < |head + tail| ensures !(head + tail)[k].LowerArg? {
        if k < |head| { assert (head + tail)[k] == head[k]; } else { assert (head + tail)[k] == tail[k - |head|]; }
      }
    }
  }

  lemma {:induction false} CharsOnlyCalls(p: string)
    ensures forall k :: 0 <= k < |Chars(p)| ==> Chars(p)[k].Putch?
    decreases |p|
  {
    if |p| > 0 {
      CharsOnlyCalls(p[1..]);
    }
  }

  // ---------------------------------------------------------------------
  // The intended meaning: a scan of the format

  /** Print the format character by character, each `%d` printing the next
      argument. */
  function Scan(s: string, args: seq<nat>): seq<IrStep>
    decreases |s|
  {
    if |s| == 0 then []
    else if MarkAt(s, 0) then
      if |args| > 0 then [Putint(args[0])] + Scan(s[2..], args[1..]) else Scan(s[2..], args)
    else [Putch(s[0])] + Scan(s[1..], args)
  }

  lemma CharsCons(c: char, p: string)
    ensures Chars([c] + p) == [Putch(c)] + Chars(p)
  {
    assert ([c] + p)[1..] == p;
  }

  /** With no more arguments than markers, the pieces of `split("%d", -1)`
      emit exactly the scan of the format. */
  lemma {:induction false} SplitAllMatchesScan(s: string, args: seq<nat>)
    requires |args| <= Marks(s)
    ensures Emit(SplitAll(s), args) == Scan(s, args)
    decreases |s|
  {
    if |s| > 0 {
      if MarkAt(s, 0) {
        ScanMarkStep(s, args);
        if |args| > 0 {
          SplitAllMatchesScan(s[2..], args[1..]);
          assert Scan(s, args) == [Putint(args[0])] + Scan(s[2..], args[1..]);
        } else {
          SplitAllMatchesScan(s[2..], args);
          assert Scan(s, args) == Scan(s[2..], args);
        }
      } else {
        SplitAllMatchesScan(s[1..], args);
        ScanCharStep(s, args);
        assert Scan(s, args) == [Putch(s[0])] + Scan(s[1..], args);
      }
    } else {
      assert args == [];
      assert [""][1..] == [];
      assert Emit([""], args) == Chars("") + AfterPiece([], args);
    }
  }

  /** A leading marker ends an empty piece. */
  lemma ScanMarkStep(s: string, args: seq<nat>)
    requires MarkAt(s, 0)
    ensures Emit(SplitAll(s), args) == AfterPiece(SplitAll(s[2..]), args)
  {
    var r := SplitAll(s[2..]);
    assert ([""] + r)[1..] == r && ([""] + r)[0] == "";
  }

  /** A leading ordinary character starts the first piece. */
  lemma ScanCharStep(s: string, args: seq<nat>)
    requires |s| > 0 && !MarkAt(s, 0)
    ensures Emit(SplitAll(s), args) == [Putch(s[0])] + Emit(SplitAll(s[1..]), args)
  {
    var r := SplitAll(s[1..]);
    var parts := [[s[0]] + r[0]] + r[1..];
    assert parts[0] == [s[0]] + r[0] && parts[1..] == r[1..];
    CharsCons(s[0], r[0]);
    assert Emit(r, args) == Chars(r[0]) + AfterPiece(r[1..], args);
    assert Emit(parts, args) == [Putch(s[0])] + Chars(r[0]) + AfterPiece(r[1..], args);
  }

  /** The corrected lowering prints the format with each `%d` replaced by
      the next argument. */
  lemma LowerPrintfMeaning(format: string, n: nat)
    requires n <= Marks(Normalize(format))
    ensures LowerPrintf(format, n) == LowerArgs(n) + Scan(Normalize(format), Range(n))
  {
    SplitAllMatchesScan(Normalize(format), Range(n));
  }

  // ---------------------------------------------------------------------
  // Java's split as written

  /** When the format does not end in `%d`, Java's `split` keeps every
      piece and the two lowerings coincide. */
  lemma AsWrittenAgreesWithoutTrailingMark(s: string)
    requires SplitAll(s)[|SplitAll(s)| - 1] != ""
    ensures JavaSplit(s) == SplitAll(s)
  {
    SplitCount(s);
    if Marks(s) == 0 {
      JoinSplit(s);
    }
  }

  /** Empty pieces with no argument left emit nothing. */
  lemma {:induction false} EmitEmpties(e: seq<string>)
    requires forall k :: 0 <= k < |e| ==> e[k] == ""
    ensures Emit(e, []) == []
    decreases |e|
  {
    if |e| > 0 {
      EmitEmpties(e[1..]);
      assert Chars(e[0]) == [];
    }
  }

  /** Empty pieces appended once every argument is consumed add no call. */
  lemma {:induction false} EmitPadded(p: seq<string>, e: seq<string>, args: seq<nat>)
    requires |args| <= |p|
    requires forall k :: 0 <= k < |e| ==> e[k] == ""
    ensures Emit(p + e, args) == Emit(p, args)
    decreases |p|
  {
    if |p| == 0 {
      assert p + e == e;
      EmitEmpties(e);
    } else {
      assert (p + e)[0] == p[0] && (p + e)[1..] == p[1..] + e;
      if |args| > 0 {
        EmitPadded(p[1..], e, args[1..]);
      } else {
        EmitPadded(p[1..], e, args);
      }
    }
  }

  /** What `DropTrailingEmpty` removes is a run of empty pieces. */
  lemma {:induction false} DropTrailingEmptySuffix(parts: seq<string>)
    ensures forall k :: |DropTrailingEmpty(parts)| <= k < |parts| ==> parts[k] == ""
    decreases |parts|
  {
    if |parts| > 0 && parts[|parts| - 1] == "" {
      DropTrailingEmptySuffix(parts[..|parts| - 1]);
    }
  }

  /** Java's `split` keeps a prefix of the pieces and drops only empty ones. */
  lemma {:induction false} JavaSplitIsPrefix(s: string)
    ensures var j, a := JavaSplit(s), SplitAll(s);
      |j| <= |a| && a == j + a[|j|..] && forall k :: |j| <= k < |a| ==> a[k] == ""
  {
    if Marks(s) == 0 {
      SplitCount(s);
      JoinSplit(s);
    } else {
      DropTrailingEmptySuffix(SplitAll(s));
    }
  }

  /** The lowering as written emits exactly the calls of the corrected one
      when, and only when, both print equally many arguments: the pieces
      Java's `split` drops are empty, so they matter only through the
      `putint` that would follow each. */
  lemma {:induction false} AsWrittenAgreesIff(format: string, n: nat)
    ensures var s := Normalize(format);
      LowerPrintfAsWritten(format, n) == LowerPrintf(format, n)
      <==> Min(|JavaSplit(s)|, n) == Min(|SplitAll(s)|, n)
  {
    var s := Normalize(format);
    var j, a, args := JavaSplit(s), SplitAll(s), Range(n);
    JavaSplitIsPrefix(s);
    var e := a[|j|..];
    assert forall k :: 0 <= k < |e| ==> e[k] == a[|j| + k];
    if Min(|j|, n) == Min(|a|, n) {
      if |e| == 0 {
        assert a == j;
      } else {
        EmitPadded(j, e, args);
      }
    } else {
      EmitPrints(j, args);
      EmitPrints(a, args);
      var x, y := LowerPrintfAsWritten(format, n), LowerPrintf(format, n);
      assert x[n..] == Emit(j, args) && y[n..] == Emit(a, args);
      assert |Ints(x[n..])| != |Ints(y[n..])|;
    }
  }

  /** With one argument per marker, the lowering as written is the
      corrected one exactly when the last two pieces are not both empty:
      a format that is `%d`, or ends in `%d%d`, loses its last argument,
      while one ending in a single `%d` after text does not. */
  lemma {:induction false} AsWrittenAgreesWithMatchingArgs(format: string)
    ensures var s := Normalize(format); var a := SplitAll(s);
      LowerPrintfAsWritten(format, Marks(s)) == LowerPrintf(format, Marks(s))
      <==> (|a| == 1 || a[|a| - 2] != "" || a[|a| - 1] != "")
  {
    var s := Normalize(format);
    var a, n := SplitAll(s), Marks(s);
    AsWrittenAgreesIff(format, n);
    SplitCount(s);
    JavaSplitIsPrefix(s);
    if Marks(s) > 0 {
      DropKeepsAllButOne(a);
    }
  }

  /** Dropping the trailing empty pieces removes at most one of them
      exactly when the last two are not both empty. */
  lemma DropKeepsAllButOne(a: seq<string>)
    requires |a| >= 2
    ensures |DropTrailingEmpty(a)| >= |a| - 1 <==> (a[|a| - 2] != "" || a[|a| - 1] != "")
  {
    var m := |a|;
    if a[m - 1] == "" {
      var b := a[..m - 1];
      assert DropTrailingEmpty(a) == DropTrailingEmpty(b);
      if a[m - 2] == "" {
        assert b[|b| - 1] == "";
        assert b[..|b| - 1] == a[..m - 2];
        assert DropTrailingEmpty(b) == DropTrailingEmpty(a[..m - 2]);
      } else {
        assert DropTrailingEmpty(b) == b;
      }
    }
  }

  /** `printf("%d", x)`: Java's `split` leaves no piece, so nothing is
      printed, where the format asks for x. */
  lemma DroppedLoneArgument()
    ensures Emit(JavaSplit("%d"), [0]) == []
    ensures Scan("%d", [0]) == [Putint(0)]
  {
    assert MarkAt("%d", 0);
    assert "%d"[2..] == "";
    assert SplitAll("%d") == ["", ""];
    assert Marks("%d") == 1;
    assert DropTrailingEmpty(["", ""][..1]) == [];
  }

  /** The whole lowering of `printf("%d", x)`: as written, x is computed
      and never printed; corrected, it is printed. */
  lemma AsWrittenDropsArgument()
    ensures LowerPrintfAsWritten("%d", 1) == [LowerArg(0)]
    ensures LowerPrintf("%d", 1) == [LowerArg(0), Putint(0)]
  {
    assert UnescapeNewlines("%d") == "%d" by {
      assert UnescapeNewlines("d") == "d";
    }
    assert DropQuotes("%d") == "%d" by {
      assert DropQuotes("d") == "d";
    }
    assert Normalize("%d") == "%d";
    assert Range(1) == [0];
    DroppedLoneArgument();
    LowerPrintfMeaning("%d", 1);
    assert Scan("%d", [0]) == [Putint(0)];
  }

  /** `printf("a%d%d", x, y)`: only x is printed. */
  lemma DroppedSecondArgument()
    ensures Emit(JavaSplit("a%d%d"), [0, 1]) == [Putch('a'), Putint(0)]
    ensures Scan("a%d%d", [0, 1]) == [Putch('a'), Putint(0), Putint(1)]
  {
    var s := "a%d%d";
    assert !MarkAt(s, 0) && s[1..] == "%d%d";
    assert MarkAt("%d%d", 0) && "%d%d"[2..] == "%d";
    assert MarkAt("%d", 0) && "%d"[2..] == "";
    assert SplitAll("%d") == ["", ""];
    assert SplitAll("%d%d") == ["", "", ""];
    assert SplitAll(s) == [['a'] + ""] + ["", ""];
    assert ['a'] + "" == "a";
    assert SplitAll(s) == ["a", "", ""];
    assert Marks(s) == 2;
    assert ["a", "", ""][..2] == ["a", ""];
    assert ["a", ""][..1] == ["a"];
    assert JavaSplit(s) == ["a"];
    assert Chars("a") == [Putch('a')];
    assert [0, 1][1..] == [1];
  }
}
