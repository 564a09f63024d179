/**
 * The command shell (main/shell.c, rust/src/shell.rs): a line editor over a 64-byte input
 * buffer, a tokenizer and a three-entry command table, and an 8-row scrolling text screen
 * drawn on the SSD1306 display and echoed to the console.
 *
 * Every string is a char sequence read up to its first NUL, as the C helpers read it and as
 * the Rust helpers read byte slices.
 */
module Shell {
  import Console
  import Ssd1306
  import I2c
  import Seqs

  /** SHELL_MAX_LINE_LENGTH: the size of the input buffer and of every local line buffer. */
  const MaxLineLength := 64
  /** SHELL_MAX_ARGS. */
  const MaxArgs := 8
  /** MAX_LINES: the text rows of the 64-pixel-high display. */
  const MaxLines := 8
  /** The size of one display row: 21 chars and a NUL. */
  const RowSize := 22
  /** The chars of one display row: 128 pixels / 6 pixels per char. */
  const RowChars := 21

  // ---------------------------------------------------------------------------
  // NUL-terminated strings

  /** The first n elements of s, or all of s when it is shorter; none when n <= 0. */
  function Prefix<T>(s: seq<T>, n: int): (r: seq<T>)
    ensures |r| == if n <= 0 then 0 else if n < |s| then n else |s|
    ensures r <= s
  {
    if n <= 0 then [] else if n < |s| then s[..n] else s
  }

  predicate NoNul(s: string)
  {
    forall k :: 0 <= k < |s| ==> s[k] != '\0'
  }

  /** Whether the string s, read as a C string, ends at index n: no NUL before, a NUL or the end at n. */
  predicate EndsAt(s: string, n: int)
  {
    0 <= n <= |s| && (forall k :: 0 <= k < n ==> s[k] != '\0') && (n == |s| || s[n] == '\0')
  }

  /** The terminated part of s is the prefix ending at the first NUL, and that is the only place a C string can end. */
  lemma {:induction false} TerminatedEndsAt(s: string, n: int)
    ensures EndsAt(s, n) <==> 0 <= n <= |s| && Console.Terminated(s) == s[..n]
    decreases |s|
  {
    if |s| > 0 && s[0] != '\0' {
      TerminatedEndsAt(s[1..], n - 1);
      if 0 < n <= |s| {
        assert s[..n] == [s[0]] + s[1..][..n - 1];
        assert EndsAt(s, n) <==> EndsAt(s[1..], n - 1) by {
          if EndsAt(s[1..], n - 1) {
            forall k | 0 <= k < n ensures s[k] != '\0' {
              if k > 0 { assert s[k] == s[1..][k - 1]; }
            }
          }
        }
      }
      if n == 0 {
        assert Console.Terminated(s) != s[..0];
      }
    }
  }

  /** A terminated part contains no NUL and is a prefix of the string. */
  lemma TerminatedShape(s: string)
    ensures NoNul(Console.Terminated(s)) && Console.Terminated(s) <= s
    ensures EndsAt(s, |Console.Terminated(s)|)
  {
    TerminatedLength(s);
    var n := |Console.Terminated(s)|;
    TerminatedEndsAt(s, n);
  }

  lemma {:induction false} TerminatedLength(s: string)
    ensures |Console.Terminated(s)| <= |s| && Console.Terminated(s) == s[..|Console.Terminated(s)|]
    decreases |s|
  {
    if |s| > 0 && s[0] != '\0' {
      TerminatedLength(s[1..]);
    }
  }

  /** A string followed by a NUL reads back as that string, whatever follows. */
  lemma TerminatedBefore(t: string, rest: string)
    requires NoNul(t)
    ensures Console.Terminated(t + ['\0'] + rest) == t
  {
    var s := t + ['\0'] + rest;
    assert s[..|t|] == t;
    TerminatedEndsAt(s, |t|);
  }

  /** Reading from inside the terminated part gives the rest of the terminated part. */
  lemma TerminatedFrom(s: string, i: int)
    requires 0 <= i <= |s| && i <= |Console.Terminated(s)|
    ensures Console.Terminated(s[i..]) == Console.Terminated(s)[i..]
  {
    TerminatedShape(s);
    var n := |Console.Terminated(s)|;
    assert s[i..][..n - i] == s[i..n];
    TerminatedEndsAt(s[i..], n - i);
  }

  /**
   * str_copy(dest + d, src, maxLen) writes at most maxLen - 1 chars of src, stopping at its
   * NUL (or, for a Rust slice, its end), then a NUL.
   */
  function Copied(src: string, maxLen: int): string
  {
    Prefix(Console.Terminated(src), maxLen - 1)
  }

  /**
   * str_len: the index of the first NUL, or the length of a slice without one (the Rust
   * version; the C one reads until a NUL).
   */
  method StrLen(s: string) returns (n: int)
    ensures EndsAt(s, n)
    ensures n == |Console.Terminated(s)|
  {
    n := 0;
    while n < |s| && s[n] != '\0'
      invariant 0 <= n <= |s|
      invariant forall k :: 0 <= k < n ==> s[k] != '\0'
    {
      n := n + 1;
    }
    TerminatedEndsAt(s, n);
  }

  /** The char at index i of a C string, the end of a slice read as its NUL. */
  function At(s: string, i: int): char
    requires 0 <= i
  {
    if i < |s| then s[i] else '\0'
  }

  /**
   * str_equals: compares both strings char by char up to the first NUL of either; true iff
   * they end at the same index with the same chars. Rust's version compares the two
   * str_len values first and then the chars, which decides the same thing.
   */
  method StrEquals(s1: string, s2: string) returns (eq: bool)
    ensures eq <==> Console.Terminated(s1) == Console.Terminated(s2)
  {
    ghost var t1, t2 := Console.Terminated(s1), Console.Terminated(s2);
    TerminatedShape(s1);
    TerminatedShape(s2);
    var i := 0;
    while At(s1, i) != '\0' && At(s2, i) != '\0'
      invariant 0 <= i <= |t1| && i <= |t2|
      invariant t1[..i] == t2[..i]
      decreases |t1| - i
    {
      assert i < |t1| && i < |t2|;
      if s1[i] != s2[i] {
        assert t1[i] != t2[i];
        return false;
      }
      assert t1[..i + 1] == t2[..i + 1] by {
        assert t1[..i + 1] == t1[..i] + [t1[i]];
        assert t2[..i + 1] == t2[..i] + [t2[i]];
      }
      i := i + 1;
    }
    eq := At(s1, i) == At(s2, i);
    assert i == |t1| || i == |t2|;
    if eq {
      assert i == |t1| && i == |t2|;
      assert t1 == t1[..i] && t2 == t2[..i];
    } else {
      assert |t1| != |t2|;
    }
  }

  /**
   * str_copy into the array dest at offset d: the copied string, then a NUL, and no other
   * element changed; the copy reads back from dest + d as the copied string.
   */
  method StrCopy(dest: array<char>, d: int, src: string, maxLen: int)
    requires 0 <= d && 1 <= maxLen && d + maxLen <= dest.Length
    modifies dest
    ensures forall k | 0 <= k < dest.Length && !(d <= k <= d + |Copied(src, maxLen)|) :: dest[k] == old(dest[k])
    ensures Console.Terminated(dest[d..]) == Copied(src, maxLen)
  {
    ghost var t := Copied(src, maxLen);
    TerminatedShape(src);
    var i := 0;
    while i < |src| && src[i] != '\0' && i < maxLen - 1
      invariant 0 <= i <= |Console.Terminated(src)| && i <= maxLen - 1
      invariant forall k | 0 <= k < dest.Length && !(d <= k < d + i) :: dest[k] == old(dest[k])
      invariant forall k | 0 <= k < i :: dest[d + k] == src[k]
    {
      dest[d + i] := src[i];
      i := i + 1;
    }
    assert i == |t|;
    dest[d + i] := '\0';
    ForwardEndsAt(dest[d..], t);
  }

  /** A string whose first |t| chars are those of t, with a NUL after them, reads as t. */
  lemma ForwardEndsAt(s: string, t: string)
    requires NoNul(t) && |t| < |s| && s[|t|] == '\0'
    requires forall k | 0 <= k < |t| :: s[k] == t[k]
    ensures Console.Terminated(s) == t
  {
    assert s[..|t|] == t;
    TerminatedEndsAt(s, |t|);
  }

  // ---------------------------------------------------------------------------
  // The tokenizer

  /** The length of the word at the head of s: the chars before its first space or NUL. */
  function WordLen(s: string): (n: nat)
    ensures n <= |s|
    ensures |s| > 0 && s[0] != ' ' && s[0] != '\0' ==> n > 0
    decreases |s|
  {
    if |s| == 0 || s[0] == ' ' || s[0] == '\0' then 0 else 1 + WordLen(s[1..])
  }

  /**
   * The space-separated words of the C string s, in order: the reference the tokenizer is
   * proved against.
   */
  function Words(s: string): seq<string>
    decreases |s|
  {
    if |s| == 0 || s[0] == '\0' then []
    else if s[0] == ' ' then Words(s[1..])
    else [s[..WordLen(s)]] + Words(s[WordLen(s)..])
  }

  predicate NoSpace(s: string)
  {
    forall k :: 0 <= k < |s| ==> s[k] != ' '
  }

  /** A word: non-empty, with neither a space nor a NUL in it. */
  predicate IsWord(s: string)
  {
    |s| > 0 && NoSpace(s) && NoNul(s)
  }

  lemma {:induction false} WordLenSpec(s: string)
    ensures IsWord(s[..WordLen(s)]) || WordLen(s) == 0
    ensures WordLen(s) < |s| ==> s[WordLen(s)] == ' ' || s[WordLen(s)] == '\0'
    decreases |s|
  {
    if |s| > 0 && s[0] != ' ' && s[0] != '\0' {
      WordLenSpec(s[1..]);
      assert s[..WordLen(s)] == [s[0]] + s[1..][..WordLen(s[1..])];
    }
  }

  /** Every word the tokenizer can yield is a word: non-empty, without space or NUL. */
  lemma {:induction false} WordsAreWords(s: string)
    ensures forall k :: 0 <= k < |Words(s)| ==> IsWord(Words(s)[k])
    decreases |s|
  {
    if |s| > 0 && s[0] != '\0' {
      if s[0] == ' ' {
        WordsAreWords(s[1..]);
      } else {
        var n := WordLen(s);
        WordLenSpec(s);
        WordsAreWords(s[n..]);
        assert Words(s) == [s[..n]] + Words(s[n..]);
      }
    }
  }

  /** A space at the cursor separates nothing. */
  lemma WordsSpace(s: string, p: int)
    requires 0 <= p < |s| && s[p] == ' '
    ensures Words(s[p..]) == Words(s[p + 1..])
  {
    assert s[p..][1..] == s[p + 1..];
  }

  /** A run of spaces separates nothing. */
  lemma {:induction false} WordsSkip(s: string, p: int, q: int)
    requires 0 <= p <= q <= |s|
    requires forall k :: p <= k < q ==> s[k] == ' '
    ensures Words(s[p..]) == Words(s[q..])
    decreases q - p
  {
    if p < q {
      WordsSpace(s, p);
      WordsSkip(s, p + 1, q);
    }
  }

  /** A run of chars other than space and NUL from p up to a space, a NUL or the end is the next word. */
  lemma WordsWord(s: string, p: int, q: int)
    requires 0 <= p < q <= |s|
    requires forall k :: p <= k < q ==> s[k] != ' ' && s[k] != '\0'
    requires q == |s| || s[q] == ' ' || s[q] == '\0'
    ensures Words(s[p..]) == [s[p..q]] + Words(s[q..])
  {
    WordLenAt(s[p..], q - p);
    assert s[p..][..q - p] == s[p..q];
    assert s[p..][q - p..] == s[q..];
  }

  lemma {:induction false} WordLenAt(s: string, n: int)
    requires 0 <= n <= |s|
    requires forall k :: 0 <= k < n ==> s[k] != ' ' && s[k] != '\0'
    requires n == |s| || s[n] == ' ' || s[n] == '\0'
    ensures WordLen(s) == n
    decreases |s|
  {
    if n > 0 {
      WordLenAt(s[1..], n - 1);
    }
  }

  /** Nothing is left to split at a NUL or at the end. */
  lemma WordsEnd(s: string, p: int)
    requires 0 <= p <= |s| && (p == |s| || s[p] == '\0')
    ensures Words(s[p..]) == []
  {
  }

  /** The arguments the tokenizer yields for the contents of args_buffer: its first eight words. */
  function Tokens(buf: string): seq<string>
  {
    Prefix(Words(buf), MaxArgs)
  }

  /**
   * The argument loop of shell_execute over args_buffer: skip spaces, stop at the NUL, take
   * the run of chars up to the next space or NUL as the next argument, at most MaxArgs of
   * them. The C version ends each argument in place by overwriting its space with a NUL;
   * the Rust version, as here, keeps the argument as the slice [start, p).
   */
  method Tokenize(buf: string) returns (argv: seq<string>)
    ensures argv == Tokens(buf)
  {
    argv := [];
    var p := 0;
    while p < |buf| && buf[p] != '\0' && |argv| < MaxArgs
      invariant 0 <= p <= |buf| && |argv| <= MaxArgs
      invariant argv + Words(buf[p..]) == Words(buf)
      decreases MaxArgs - |argv|
    {
      var q := SkipSpaces(buf, p);
      if q >= |buf| || buf[q] == '\0' {
        WordsSkip(buf, p, q);
        WordsEnd(buf, q);
        p := q;
        break;
      }
      var e := ArgEnd(buf, q);
      var next := if e < |buf| && buf[e] == ' ' then e + 1 else e;
      TokenStep(buf, argv, p, q, e, next);
      argv := argv + [buf[q..e]];
      p := next;
    }
    if |argv| < MaxArgs {
      WordsEnd(buf, p);
    }
    assert Words(buf)[..|argv|] == argv;
  }

  /**
   * One round of the argument loop: the spaces from p to start, the argument from start to
   * e, and the space after it if there is one.
   */
  lemma TokenStep(buf: string, argv: seq<string>, p: int, start: int, e: int, next: int)
    requires 0 <= p <= start < e <= |buf|
    requires argv + Words(buf[p..]) == Words(buf)
    requires forall k :: p <= k < start ==> buf[k] == ' '
    requires forall k :: start <= k < e ==> buf[k] != ' ' && buf[k] != '\0'
    requires e == |buf| || buf[e] == ' ' || buf[e] == '\0'
    requires next == if e < |buf| && buf[e] == ' ' then e + 1 else e
    ensures (argv + [buf[start..e]]) + Words(buf[next..]) == Words(buf)
  {
    WordsSkip(buf, p, start);
    WordsWord(buf, start, e);
    if next > e {
      WordsSpace(buf, e);
    }
    Seqs.AppendAssoc(argv, [buf[start..e]], Words(buf[next..]));
  }

  /** The skip-whitespace loop of the tokenizer: the index of the first non-space from p. */
  method SkipSpaces(buf: string, p: int) returns (q: int)
    requires 0 <= p <= |buf|
    ensures p <= q <= |buf| && (q == |buf| || buf[q] != ' ')
    ensures forall k :: p <= k < q ==> buf[k] == ' '
  {
    q := p;
    while q < |buf| && buf[q] == ' '
      invariant p <= q <= |buf|
      invariant forall k :: p <= k < q ==> buf[k] == ' '
    {
      q := q + 1;
    }
  }

  /** The find-end-of-argument loop of the tokenizer: the index of the first space or NUL from p. */
  method ArgEnd(buf: string, p: int) returns (q: int)
    requires 0 <= p <= |buf|
    ensures p <= q <= |buf| && (q == |buf| || buf[q] == ' ' || buf[q] == '\0')
    ensures forall k :: p <= k < q ==> buf[k] != ' ' && buf[k] != '\0'
  {
    q := p;
    while q < |buf| && buf[q] != '\0' && buf[q] != ' '
      invariant p <= q <= |buf|
      invariant forall k :: p <= k < q ==> buf[k] != ' ' && buf[k] != '\0'
    {
      q := q + 1;
    }
  }

  // ---------------------------------------------------------------------------
  // echo

  /** The words of ws joined by single spaces. */
  function Join(ws: seq<string>): string
    decreases |ws|
  {
    if |ws| == 0 then [] else if |ws| == 1 then ws[0] else ws[0] + " " + Join(ws[1..])
  }

  lemma {:induction false} JoinSnoc(ws: seq<string>, w: string)
    requires |ws| > 0
    ensures Join(ws + [w]) == Join(ws) + " " + w
    decreases |ws|
  {
    if |ws| > 1 {
      assert (ws + [w])[1..] == ws[1..] + [w];
      JoinSnoc(ws[1..], w);
    } else {
      assert (ws + [w])[1..] == [w];
    }
  }

  /** Splitting words joined by single spaces gives the words back: the tokenizer inverts the join. */
  lemma {:induction false} WordsOfJoin(ws: seq<string>)
    requires forall k :: 0 <= k < |ws| ==> IsWord(ws[k])
    ensures Words(Join(ws)) == ws
    decreases |ws|
  {
    if |ws| > 0 {
      var w := ws[0];
      assert IsWord(w);
      if |ws| == 1 {
        WordsWord(w, 0, |w|);
        assert w[|w|..] == [];
        assert w[0..|w|] == w;
      } else {
        var s := w + " " + Join(ws[1..]);
        assert forall k :: 0 <= k < |w| ==> s[k] == w[k];
        WordsWord(s, 0, |w|);
        assert s[0..|w|] == w;
        WordsSpace(s, |w|);
        assert s[|w| + 1..] == Join(ws[1..]);
        WordsOfJoin(ws[1..]);
        assert ws == [w] + ws[1..];
      }
    }
  }

  /**
   * The message cmd_echo builds from args (its argv[1..]) after the first n of them: each
   * argument's chars while the message is shorter than MaxLineLength - 2, then a space if it
   * was not the last argument and the message is shorter than MaxLineLength - 1.
   */
  function Joined(args: seq<string>, n: nat): string
    requires n <= |args|
    decreases n
  {
    if n == 0 then []
    else
      var m := Joined(args, n - 1);
      var withArg := m + Prefix(args[n - 1], MaxLineLength - 2 - |m|);
      if n < |args| && |withArg| < MaxLineLength - 1 then withArg + " " else withArg
  }

  /** What cmd_echo prints for argv with at least two entries. */
  function EchoText(argv: seq<string>): string
    requires |argv| >= 2
  {
    Joined(argv[1..], |argv| - 1)
  }

  /** One round of the echo loop. */
  lemma JoinedNext(args: seq<string>, n: nat)
    requires 0 < n <= |args|
    ensures var w := Joined(args, n - 1) + Prefix(args[n - 1], MaxLineLength - 2 - |Joined(args, n - 1)|);
      Joined(args, n) == if n < |args| && |w| < MaxLineLength - 1 then w + " " else w
  {
  }

  /**
   * The message never outgrows its buffer: at most MaxLineLength - 1 chars, and it reaches
   * that length only through a separating space.
   */
  lemma {:induction false} JoinedBound(args: seq<string>, n: nat)
    requires n <= |args|
    ensures |Joined(args, n)| <= MaxLineLength - 1
    ensures |Joined(args, n)| == MaxLineLength - 1 ==> Joined(args, n)[MaxLineLength - 2] == ' '
    decreases n
  {
    if n > 0 {
      JoinedBound(args, n - 1);
    }
  }

  /**
   * Once the message is full nothing is added to it: the C loop's extra `pos < 63` guard,
   * which the Rust loop lacks, changes nothing.
   */
  lemma {:induction false} JoinedFull(args: seq<string>, n: nat, m: nat)
    requires n <= m <= |args| && |Joined(args, n)| >= MaxLineLength - 1
    ensures Joined(args, m) == Joined(args, n)
    decreases m - n
  {
    if n < m {
      JoinedBound(args, n);
      assert Joined(args, n + 1) == Joined(args, n);
      JoinedFull(args, n + 1, m);
    }
  }

  lemma {:induction false} JoinPrefixLength(ws: seq<string>, n: nat)
    requires 0 < n <= |ws|
    ensures |Join(ws[..n])| <= |Join(ws)|
    decreases |ws| - n
  {
    if n < |ws| {
      JoinSnoc(ws[..n], ws[n]);
      assert ws[..n + 1] == ws[..n] + [ws[n]];
      JoinPrefixLength(ws, n + 1);
    } else {
      assert ws[..n] == ws;
    }
  }

  /** Argument n of ws starts a separator's width after the join of those before it. */
  lemma JoinRoom(ws: seq<string>, n: nat)
    requires 0 < n < |ws|
    ensures Join(ws[..n + 1]) == Join(ws[..n]) + " " + ws[n]
    ensures |Join(ws[..n])| + 1 + |ws[n]| <= |Join(ws)|
  {
    assert ws[..n + 1] == ws[..n] + [ws[n]];
    JoinSnoc(ws[..n], ws[n]);
    JoinPrefixLength(ws, n + 1);
  }

  lemma {:induction false} JoinedPrefix(args: seq<string>, n: nat)
    requires 0 < n <= |args| && |Join(args)| <= MaxLineLength - 2
    ensures Joined(args, n) == Join(args[..n]) + (if n < |args| then " " else "")
    decreases n
  {
    if n > 1 {
      JoinedPrefix(args, n - 1);
    }
    JoinedPrefixStep(args, n);
  }

  /** One step of JoinedPrefix: argument n - 1 fits whole, and so does the space after it. */
  lemma JoinedPrefixStep(args: seq<string>, n: nat)
    requires 0 < n <= |args| && |Join(args)| <= MaxLineLength - 2
    requires n > 1 ==> Joined(args, n - 1) == Join(args[..n - 1]) + " "
    ensures Joined(args, n) == Join(args[..n]) + (if n < |args| then " " else "")
  {
    JoinPrefixLength(args, n);
    if n < |args| {
      JoinRoom(args, n);
    }
    var m := Joined(args, n - 1);
    if n == 1 {
      assert args[..1] == [args[0]];
    } else {
      JoinRoom(args, n - 1);
    }
    assert |m| + |args[n - 1]| <= MaxLineLength - 2;
    assert m + args[n - 1] == Join(args[..n]);
    JoinedNext(args, n);
  }

  /**
   * echo prints its arguments joined by single spaces exactly when they fit in
   * MaxLineLength - 2 chars; longer ones come out cut short.
   */
  lemma EchoJoins(args: seq<string>)
    requires |args| > 0 && forall k :: 0 <= k < |args| ==> IsWord(args[k])
    ensures Joined(args, |args|) == Join(args) <==> |Join(args)| <= MaxLineLength - 2
  {
    if |Join(args)| <= MaxLineLength - 2 {
      JoinedPrefix(args, |args|);
      assert args[..|args|] == args;
    } else {
      JoinedBound(args, |args|);
      if Joined(args, |args|) == Join(args) {
        JoinLast(args);
        assert false;
      }
    }
  }

  /** A join of words ends with the last word's last char, never a space. */
  lemma {:induction false} JoinLast(ws: seq<string>)
    requires |ws| > 0 && forall k :: 0 <= k < |ws| ==> IsWord(ws[k])
    ensures |Join(ws)| > 0 && Join(ws)[|Join(ws)| - 1] != ' '
    decreases |ws|
  {
    if |ws| > 1 {
      JoinLast(ws[1..]);
    } else {
      assert IsWord(ws[0]);
    }
  }

  /**
   * The two loops of cmd_echo building the message in a local buffer: the C outer guard
   * `pos < MaxLineLength - 1` included; the message is returned as the buffer's contents,
   * NUL-terminated.
   */
  method EchoMessage(argv: seq<string>) returns (message: string)
    requires |argv| >= 2 && forall k :: 0 <= k < |argv| ==> NoNul(argv[k])
    ensures Console.Terminated(message) == EchoText(argv)
  {
    var buf := new char[MaxLineLength];
    var pos := 0;
    var i := 1;
    while i < |argv| && pos < MaxLineLength - 1
      invariant 1 <= i <= |argv| && pos == |Joined(argv[1..], i - 1)| <= MaxLineLength - 1
      invariant forall k | 0 <= k < pos :: buf[k] == Joined(argv[1..], i - 1)[k]
    {
      pos := EchoArg(buf, argv, i, pos);
      i := i + 1;
    }
    buf[pos] := '\0';
    message := buf[..];
    EchoEnds(argv, i - 1, message, pos);
  }

  /** The loop of cmd_echo ended with every argument in, or with the buffer full: the message is complete. */
  lemma EchoEnds(argv: seq<string>, n: nat, s: string, pos: int)
    requires 1 < |argv| && n <= |argv| - 1 && forall k :: 0 <= k < |argv| ==> NoNul(argv[k])
    requires pos == |Joined(argv[1..], n)| < |s| && s[pos] == '\0'
    requires forall k | 0 <= k < pos :: s[k] == Joined(argv[1..], n)[k]
    requires n == |argv| - 1 || pos >= MaxLineLength - 1
    ensures Console.Terminated(s) == EchoText(argv)
  {
    var m := Joined(argv[1..], n);
    EchoDone(argv, n, m);
    ForwardEndsAt(s, m);
  }

  /** One round of the outer loop of cmd_echo: argument i, then the space after it. */
  method EchoArg(buf: array<char>, argv: seq<string>, i: int, pos: int) returns (pos': int)
    requires buf.Length == MaxLineLength && 1 <= i < |argv| && NoNul(argv[i])
    requires pos == |Joined(argv[1..], i - 1)| < MaxLineLength - 1
    requires forall k | 0 <= k < pos :: buf[k] == Joined(argv[1..], i - 1)[k]
    modifies buf
    ensures pos' == |Joined(argv[1..], i)| <= MaxLineLength - 1
    ensures forall k | 0 <= k < pos' :: buf[k] == Joined(argv[1..], i)[k]
  {
    ghost var args := argv[1..];
    ghost var m := Joined(args, i - 1);
    var len := StrLen(argv[i]);
    Console.TerminatedPlain(argv[i]);
    assert args[i - 1] == argv[i];
    ghost var w := m + Prefix(argv[i], MaxLineLength - 2 - |m|);
    pos' := AppendArg(buf, pos, argv[i], len, m);
    JoinedNext(args, i);
    JoinedBound(args, i);
    if i < |argv| - 1 && pos' < MaxLineLength - 1 {
      buf[pos'] := ' ';
      pos' := pos' + 1;
      assert Joined(args, i) == w + " ";
    } else {
      assert Joined(args, i) == w;
    }
  }

  /** When the echo loop ends, by running out of arguments or of room, the message is complete. */
  lemma EchoDone(argv: seq<string>, n: nat, m: string)
    requires 0 < |argv| && n <= |argv| - 1 && m == Joined(argv[1..], n)
    requires n == |argv| - 1 || |m| >= MaxLineLength - 1
    requires forall k :: 0 <= k < |argv| ==> NoNul(argv[k])
    ensures m == Joined(argv[1..], |argv| - 1) && NoNul(m)
  {
    var args := argv[1..];
    assert forall k :: 0 <= k < |args| ==> NoNul(args[k]) by {
      forall k | 0 <= k < |args| ensures NoNul(args[k]) {
        assert args[k] == argv[k + 1];
      }
    }
    if n < |args| {
      JoinedFull(args, n, |args|);
    }
    JoinedNoNul(args, |args|);
  }

  /** The inner loop of cmd_echo: the chars of arg while pos < MaxLineLength - 2. */
  method AppendArg(buf: array<char>, pos: int, arg: string, len: int, ghost m: string) returns (pos': int)
    requires buf.Length == MaxLineLength && pos == |m| <= MaxLineLength - 1 && len == |arg|
    requires forall k | 0 <= k < pos :: buf[k] == m[k]
    modifies buf
    ensures var w := m + Prefix(arg, MaxLineLength - 2 - |m|); pos' == |w| && forall k | 0 <= k < pos' :: buf[k] == w[k]
  {
    pos' := pos;
    var j := 0;
    while j < len && pos' < MaxLineLength - 2
      invariant 0 <= j <= len && pos' == pos + j
      invariant j == 0 || pos' <= MaxLineLength - 2
      invariant forall k | 0 <= k < pos :: buf[k] == m[k]
      invariant forall k | 0 <= k < j :: buf[pos + k] == arg[k]
    {
      buf[pos'] := arg[j];
      pos' := pos' + 1;
      j := j + 1;
    }
    ghost var w := m + Prefix(arg, MaxLineLength - 2 - |m|);
    assert |w| == pos';
    forall k | 0 <= k < pos' ensures buf[k] == w[k] {
      if k >= pos { assert w[k] == arg[k - pos]; }
    }
  }

  lemma {:induction false} JoinedNoNul(args: seq<string>, n: nat)
    requires n <= |args| && forall k :: 0 <= k < |args| ==> NoNul(args[k])
    ensures NoNul(Joined(args, n))
    decreases n
  {
    if n > 0 {
      JoinedNoNul(args, n - 1);
      assert NoNul(args[n - 1]);
    }
  }

  // ---------------------------------------------------------------------------
  // Command lines

  /** The start of the prompt line shell_execute prints for every command line. */
  const Prompt := "> "
  const UnknownPrefix := "command unknown: "
  const Usage := "Usage: echo <text>"
  /** The names of the command table, in order. The Rust table stores each with a trailing NUL. */
  const Commands: seq<string> := ["help", "clear", "echo"]
  /** The lines cmd_help prints. */
  const HelpText: seq<string> := ["Available commands:", "  help  - Show help", "  clear - Clear screen", "  echo  - Echo text"]
  /** The lines shell_init prints. */
  const Banner: seq<string> := ["RISC-V Shell v1.0", "Type 'help'", ">"]

  /** What the shell does on behalf of a command: print a line, or clear the screen. */
  datatype Action = Show(text: string) | Wipe

  function Shows(texts: seq<string>): (r: seq<Action>)
    ensures |r| == |texts| && forall k :: 0 <= k < |texts| ==> r[k] == Show(texts[k])
  {
    seq(|texts|, k requires 0 <= k < |texts| => Show(texts[k]))
  }

  /** The number of spaces at the head of s. */
  function LeadingSpaces(s: string): (n: nat)
    ensures n <= |s|
    decreases |s|
  {
    if |s| > 0 && s[0] == ' ' then 1 + LeadingSpaces(s[1..]) else 0
  }

  lemma {:induction false} LeadingSpacesAt(s: string, n: int)
    requires 0 <= n <= |s| && (forall k :: 0 <= k < n ==> s[k] == ' ') && (n == |s| || s[n] != ' ')
    ensures LeadingSpaces(s) == n
    decreases n
  {
    if n > 0 {
      LeadingSpacesAt(s[1..], n - 1);
    }
  }

  /**
   * The arguments shell_execute hands to a command for the command line `line`: its leading
   * spaces skipped, the rest cut to what args_buffer holds, split into at most MaxArgs words.
   */
  function Args(line: string): seq<string>
  {
    Tokens(Prefix(line[LeadingSpaces(line)..], MaxLineLength - 1))
  }

  /** The lines printed for an unknown command: one if it fits a display row, else two. */
  function UnknownLines(name: string): seq<Action>
  {
    if |UnknownPrefix| + |name| <= RowChars then [Show(UnknownPrefix + name)]
    else [Show(UnknownPrefix), Show(name)]
  }

  /** What the command table does for the arguments argv. */
  function Dispatch(argv: seq<string>): seq<Action>
  {
    if |argv| == 0 then []
    else if argv[0] == Commands[0] then Shows(HelpText)
    else if argv[0] == Commands[1] then [Wipe]
    else if argv[0] == Commands[2] then [Show(if |argv| < 2 then Usage else EchoText(argv))]
    else UnknownLines(argv[0])
  }

  /** What shell_execute does for the command line `line`: the prompt line, then the command. */
  function Response(line: string): seq<Action>
  {
    [Show(Prompt + Prefix(line, MaxLineLength - 3))] + Dispatch(Args(line))
  }

  // ---------------------------------------------------------------------------
  // The display rows

  /** The rows of display_lines, stored row-major in one array of MaxLines * RowSize chars, each read up to its NUL. */
  function RowsOf(cells: seq<char>): (rows: seq<string>)
    requires |cells| == MaxLines * RowSize
    ensures |rows| == MaxLines
  {
    seq(MaxLines, i requires 0 <= i < MaxLines => Console.Terminated(cells[RowSize * i .. RowSize * i + RowSize]))
  }

  /** Every row holds at most RowChars chars and the rows from `used` on are empty. */
  predicate RowsFit(rows: seq<string>, used: int)
  {
    |rows| == MaxLines &&
    forall i :: 0 <= i < MaxLines ==> |rows[i]| <= RowChars && (used <= i ==> rows[i] == [])
  }

  /** The rows in use after printing `row` with rows `hist` in use: the oldest dropped when all MaxLines are taken. */
  function Scrolled(hist: seq<string>, row: string): (r: seq<string>)
  {
    if |hist| >= MaxLines then hist[1..] + [row] else hist + [row]
  }

  /** The rows in use after one action. */
  function Apply(hist: seq<string>, a: Action): seq<string>
  {
    match a
    case Show(t) => Scrolled(hist, Copied(t, RowSize))
    case Wipe => []
  }

  /** The rows in use after the actions, in order. */
  function Replay(hist: seq<string>, acts: seq<Action>): seq<string>
    decreases |acts|
  {
    if |acts| == 0 then hist else Replay(Apply(hist, acts[0]), acts[1..])
  }

  /** The bytes the actions send to the console: each printed line then a newline. */
  function Transcript(acts: seq<Action>): seq<bv8>
    decreases |acts|
  {
    if |acts| == 0 then []
    else
      (match acts[0]
       case Show(t) => Console.Expand(t) + Console.Expand("\n")
       case Wipe => []) + Transcript(acts[1..])
  }

  /** The framebuffer refresh_display draws for the first n rows: a cleared screen, then row i at y = 8 * i. */
  function Screen(font: seq<seq<bv8>>, rows: seq<string>, n: nat): (r: seq<bv8>)
    requires Ssd1306.FontValid(font) && n <= |rows|
    ensures |r| == Ssd1306.BufferSize
    decreases n
  {
    if n == 0 then Ssd1306.Blank()
    else Ssd1306.DrawnCells(font, Ssd1306.Layout(0, 0, 8 * (n - 1), rows[n - 1]), Screen(font, rows, n - 1))
  }

  // ---------------------------------------------------------------------------
  // The line editor

  predicate Printable(c: char)
  {
    ' ' <= c <= '~'
  }

  predicate IsErase(b: bv8)
  {
    b == 8 || b == 127
  }

  predicate IsEnter(b: bv8)
  {
    b == 10 || b == 13
  }

  /** The input line after the byte b is typed. */
  function Edited(line: string, b: bv8): string
  {
    if IsErase(b) then (if |line| > 0 then line[..|line| - 1] else line)
    else if IsEnter(b) then []
    else if 32 <= b <= 126 && |line| < MaxLineLength - 1 then line + [b as char]
    else line
  }

  /** The bytes shell_process_char passes to console_putc itself when b is typed. */
  function KeyEcho(line: string, b: bv8): seq<bv8>
  {
    if IsErase(b) then (if |line| > 0 then [8, 32, 8] else [])
    else if IsEnter(b) then [10]
    else if 32 <= b <= 126 && |line| < MaxLineLength - 1 then [b]
    else []
  }

  /** What the shell does when b is typed: on newline, runs a nonempty line and prints a fresh prompt. */
  function KeyActions(line: string, b: bv8): seq<Action>
  {
    if IsEnter(b) then (if |line| > 0 then Response(line) else []) + [Show(">")] else []
  }

  // ---------------------------------------------------------------------------
  // Row and screen lemmas

  /** Cutting a string after its NUL leaves what it reads as unchanged. */
  lemma TerminatedWithin(s: string, n: int)
    requires |Console.Terminated(s)| < n <= |s|
    ensures Console.Terminated(s[..n]) == Console.Terminated(s)
  {
    TerminatedShape(s);
    var m := |Console.Terminated(s)|;
    assert s[..n][..m] == s[..m];
    TerminatedEndsAt(s[..n], m);
  }

  /**
   * Writing row r so that it reads as t, touching no cell outside [RowSize * r, RowSize * r + |t|],
   * changes row r to t and no other row.
   */
  lemma RowPut(cells: seq<char>, cells': seq<char>, r: int, t: string)
    requires |cells| == |cells'| == MaxLines * RowSize && 0 <= r < MaxLines && |t| <= RowChars
    requires forall k | 0 <= k < |cells| && !(RowSize * r <= k <= RowSize * r + |t|) :: cells'[k] == cells[k]
    requires Console.Terminated(cells'[RowSize * r..]) == t
    ensures RowsOf(cells') == RowsOf(cells)[r := t]
  {
    forall i | 0 <= i < MaxLines
      ensures RowsOf(cells')[i] == RowsOf(cells)[r := t][i]
    {
      if i == r {
        TerminatedWithin(cells'[RowSize * r..], RowSize);
        assert cells'[RowSize * r..][..RowSize] == cells'[RowSize * r .. RowSize * r + RowSize];
      } else {
        assert cells'[RowSize * i .. RowSize * i + RowSize] == cells[RowSize * i .. RowSize * i + RowSize];
      }
    }
  }

  /** draw_string stops at the first NUL. */
  lemma {:induction false} LayoutTerminated(x0: int, cx: int, cy: int, s: string)
    ensures Ssd1306.Layout(x0, cx, cy, s) == Ssd1306.Layout(x0, cx, cy, Console.Terminated(s))
    decreases |s|
  {
    if |s| > 0 && s[0] != '\0' {
      var t := Console.Terminated(s);
      assert t[0] == s[0] && t[1..] == Console.Terminated(s[1..]);
      LayoutTerminated(x0, x0, cy + 8, s[1..]);
      LayoutTerminated(x0, cx + 6, cy, s[1..]);
    }
  }

  /** Drawing row i, or skipping it when it starts with a NUL, extends the screen of rows before it by that row. */
  lemma ScreenRow(font: seq<seq<bv8>>, cells: seq<char>, i: int, before: seq<bv8>, after: seq<bv8>)
    requires Ssd1306.FontValid(font) && |cells| == MaxLines * RowSize && 0 <= i < MaxLines
    requires before == Screen(font, RowsOf(cells), i)
    requires cells[RowSize * i] != '\0' ==>
      after == Ssd1306.DrawnCells(font, Ssd1306.Layout(0, 0, 8 * i, cells[RowSize * i .. RowSize * i + RowSize]), before)
    requires cells[RowSize * i] == '\0' ==> after == before
    ensures after == Screen(font, RowsOf(cells), i + 1)
  {
    var row := cells[RowSize * i .. RowSize * i + RowSize];
    assert RowsOf(cells)[i] == Console.Terminated(row);
    LayoutTerminated(0, 0, 8 * i, row);
    if cells[RowSize * i] == '\0' {
      assert row[0] == '\0';
    }
  }

  /** console_puts stops at the first NUL. */
  lemma {:induction false} ExpandTerminated(s: string)
    ensures Console.Expand(s) == Console.Expand(Console.Terminated(s))
    decreases |s|
  {
    if |s| > 0 && s[0] != '\0' {
      var t := Console.Terminated(s);
      assert t[0] == s[0] && t[1..] == Console.Terminated(s[1..]);
      ExpandTerminated(s[1..]);
    }
  }

  lemma {:induction false} ReplayAppend(hist: seq<string>, a: seq<Action>, b: seq<Action>)
    ensures Replay(hist, a + b) == Replay(Replay(hist, a), b)
    decreases |a|
  {
    if |a| > 0 {
      assert (a + b)[0] == a[0] && (a + b)[1..] == a[1..] + b;
      ReplayAppend(Apply(hist, a[0]), a[1..], b);
    } else {
      assert a + b == b;
    }
  }

  lemma {:induction false} TranscriptAppend(a: seq<Action>, b: seq<Action>)
    ensures Transcript(a + b) == Transcript(a) + Transcript(b)
    decreases |a|
  {
    if |a| > 0 {
      assert (a + b)[0] == a[0] && (a + b)[1..] == a[1..] + b;
      TranscriptAppend(a[1..], b);
    } else {
      assert a + b == b;
    }
  }

  // ---------------------------------------------------------------------------
  // The shell

  /** The shell's state: the line being typed, the text rows of the display, and the two devices. */
  class Shell {
    /** input_buffer: the line being typed, NUL-terminated at inputPos. */
    const input: array<char>
    /** input_pos. */
    var inputPos: int
    /** display_lines, row i at [RowSize * i, RowSize * i + RowSize). */
    const lines: array<char>
    /** current_line: the number of rows in use. */
    var currentLine: int
    const console: Console.Transmitter
    const display: Ssd1306.Driver

    /** The line typed so far. */
    ghost function Line(): string
      reads this, input
      requires 0 <= inputPos <= input.Length
    {
      input[..inputPos]
    }

    /** The rows in use, oldest first. */
    ghost function History(): seq<string>
      reads this, lines
      requires lines.Length == MaxLines * RowSize && 0 <= currentLine <= MaxLines
    {
      RowsOf(lines[..])[..currentLine]
    }

    /**
     * The state between calls: the input line is printable and NUL-terminated, the rows in
     * use fit a display row and the others are empty, and both devices are ready.
     */
    ghost predicate Ready()
      reads this, input, lines, console, console.buffer, display, display.bus
    {
      Buffers() && console.Valid() && display.Valid() && console.buffer != display.buffer &&
      input as object != console.buffer && lines as object != console.buffer &&
      input as object != display.buffer && lines as object != display.buffer
    }

    /** The shell's own buffers: the input line printable and NUL-terminated, the rows fitting. */
    ghost predicate Buffers()
      reads this, input, lines
    {
      input.Length == MaxLineLength && lines.Length == MaxLines * RowSize && input != lines &&
      0 <= inputPos < MaxLineLength && input[inputPos] == '\0' &&
      (forall k :: 0 <= k < inputPos ==> Printable(input[k])) &&
      0 <= currentLine <= MaxLines && RowsFit(RowsOf(lines[..]), currentLine)
    }

    /** Ready, and the framebuffer shows the rows. */
    ghost predicate Valid()
      reads this, input, lines, console, console.buffer, display, display.bus, display.buffer
    {
      Ready() && display.buffer[..] == Screen(display.font, RowsOf(lines[..]), MaxLines)
    }

    /**
     * shell_refresh_display: clear the framebuffer, draw each nonempty row at y = 8 * i, send
     * the framebuffer to the display.
     */
    method Refresh()
      requires Ready()
      modifies display.buffer, display.bus
      ensures Valid()
      ensures display.bus.Log() == I2c.Run(old(display.bus.Log()), Ssd1306.DisplayFrames(display.addr, display.buffer[..]))
    {
      display.Clear();
      DrawRows();
      display.Display();
    }

    /** The row loop of shell_refresh_display: each nonempty row drawn at y = 8 * i. */
    method DrawRows()
      requires display.Valid() && lines.Length == MaxLines * RowSize && display.buffer[..] == Ssd1306.Blank()
      requires lines as object != display.buffer
      modifies display.buffer
      ensures display.buffer[..] == Screen(display.font, RowsOf(lines[..]), MaxLines)
    {
      for i := 0 to MaxLines
        invariant display.Valid()
        invariant display.buffer[..] == Screen(display.font, RowsOf(lines[..]), i)
      {
        DrawRow(i);
      }
    }

    /** Row i drawn at y = 8 * i if it is not empty. */
    method DrawRow(i: int)
      requires display.Valid() && lines.Length == MaxLines * RowSize && 0 <= i < MaxLines
      requires lines as object != display.buffer
      requires display.buffer[..] == Screen(display.font, RowsOf(lines[..]), i)
      modifies display.buffer
      ensures display.Valid()
      ensures display.buffer[..] == Screen(display.font, RowsOf(lines[..]), i + 1)
    {
      ghost var cells, before := lines[..], display.buffer[..];
      if lines[RowSize * i] != '\0' {
        display.DrawString(0, 8 * i, lines[RowSize * i .. RowSize * i + RowSize]);
      }
      ScreenRow(display.font, cells, i, before, display.buffer[..]);
    }

    /**
     * shell_init: an empty input line, all rows cleared, then the banner printed. The
     * buffers start zeroed, as the C statics and the Rust statics do.
     */
    constructor Init(console: Console.Transmitter, display: Ssd1306.Driver)
      requires console.Valid() && display.Valid() && console.buffer != display.buffer
      modifies console, console.buffer, display.buffer, display.bus
      ensures Valid() && Line() == [] && this.console == console && this.display == display
      ensures History() == Replay([], Shows(Banner)) == Banner
      ensures console.input == old(console.input) + Transcript(Shows(Banner))
      ensures console.pos == 0
    {
      this.console := console;
      this.display := display;
      input := new char[MaxLineLength](_ => '\0');
      lines := new char[MaxLines * RowSize](_ => '\0');
      inputPos := 0;
      currentLine := 0;
      new;
      for i := 0 to MaxLines
        modifies lines
        invariant forall k :: 0 <= k < lines.Length ==> lines[k] == '\0'
      {
        lines[RowSize * i] := '\0';
      }
      assert RowsOf(lines[..]) == seq(MaxLines, _ => []);
      Greet();
    }

    /** The banner shell_init prints on an empty screen. */
    method Greet()
      requires Ready() && History() == []
      modifies this, lines, console, console.buffer, display.buffer, display.bus
      ensures Valid() && inputPos == old(inputPos)
      ensures History() == Replay([], Shows(Banner)) == Banner
      ensures console.input == old(console.input) + Transcript(Shows(Banner))
      ensures console.pos == 0
    {
      ghost var i0 := console.input;
      ghost var acts: seq<Action> := [];
      ghost var h, i := History(), console.input;
      Print(Banner[0]);
      ShowStep([], acts, Banner[0], h, History(), i0, i, console.input);
      acts, h, i := acts + [Show(Banner[0])], History(), console.input;
      Print(Banner[1]);
      ShowStep([], acts, Banner[1], h, History(), i0, i, console.input);
      acts, h, i := acts + [Show(Banner[1])], History(), console.input;
      Print(Banner[2]);
      ShowStep([], acts, Banner[2], h, History(), i0, i, console.input);
      acts := acts + [Show(Banner[2])];
      BannerRows();
    }

    /** shell_clear: every row emptied, none in use, the display refreshed. */
    method ClearScreen()
      requires Ready()
      modifies this, lines, display.buffer, display.bus
      ensures Valid() && inputPos == old(inputPos) && History() == []
    {
      ClearRows();
      currentLine := 0;
      Refresh();
    }

    /** The loop of shell_clear and shell_init: the first char of every row set to NUL. */
    method ClearRows()
      requires lines.Length == MaxLines * RowSize
      modifies lines
      ensures RowsOf(lines[..]) == seq(MaxLines, _ => [])
    {
      for i := 0 to MaxLines
        invariant forall j | 0 <= j < i :: RowsOf(lines[..])[j] == []
      {
        ghost var cells := lines[..];
        lines[RowSize * i] := '\0';
        RowPut(cells, lines[..], i, []);
      }
    }

    /** cmd_help: the four help lines. */
    method Help()
      requires Ready()
      modifies this, lines, console, console.buffer, display.buffer, display.bus
      ensures Valid() && inputPos == old(inputPos)
      ensures History() == Replay(old(History()), Shows(HelpText))
      ensures console.input == old(console.input) + Transcript(Shows(HelpText))
      ensures console.pos == 0
    {
      ghost var h0, i0 := History(), console.input;
      ghost var acts: seq<Action> := [];
      ghost var h, i := h0, i0;
      Print(HelpText[0]);
      ShowStep(h0, acts, HelpText[0], h, History(), i0, i, console.input);
      acts, h, i := acts + [Show(HelpText[0])], History(), console.input;
      Print(HelpText[1]);
      ShowStep(h0, acts, HelpText[1], h, History(), i0, i, console.input);
      acts, h, i := acts + [Show(HelpText[1])], History(), console.input;
      Print(HelpText[2]);
      ShowStep(h0, acts, HelpText[2], h, History(), i0, i, console.input);
      acts, h, i := acts + [Show(HelpText[2])], History(), console.input;
      Print(HelpText[3]);
      ShowStep(h0, acts, HelpText[3], h, History(), i0, i, console.input);
      ShowsFour(HelpText);
    }

    /** cmd_echo: the usage line without arguments, else the arguments joined by spaces. */
    method Echo(argv: seq<string>)
      requires Ready() && |argv| > 0 && forall k :: 0 <= k < |argv| ==> NoNul(argv[k])
      modifies this, lines, console, console.buffer, display.buffer, display.bus
      ensures Valid() && inputPos == old(inputPos)
      ensures var a := Show(if |argv| < 2 then Usage else EchoText(argv));
        History() == Replay(old(History()), [a]) && console.input == old(console.input) + Transcript([a])
      ensures console.pos == 0
    {
      if |argv| < 2 {
        ghost var h0, i0 := History(), console.input;
        Print(Usage);
        ShowStep(h0, [], Usage, h0, History(), i0, i0, console.input);
        return;
      }
      EchoArgs(argv);
    }

    /** The message of cmd_echo built in a local buffer and printed once. */
    method EchoArgs(argv: seq<string>)
      requires Ready() && |argv| >= 2 && forall k :: 0 <= k < |argv| ==> NoNul(argv[k])
      modifies this, lines, console, console.buffer, display.buffer, display.bus
      ensures Valid() && inputPos == old(inputPos)
      ensures History() == Replay(old(History()), [Show(EchoText(argv))])
      ensures console.input == old(console.input) + Transcript([Show(EchoText(argv))])
      ensures console.pos == 0
    {
      ghost var h0, i0 := History(), console.input;
      var message := EchoMessage(argv);
      EchoPlain(argv);
      Print(message);
      OneShow(h0, message, EchoText(argv), History(), i0, console.input);
    }

    /** The unknown-command branch of shell_execute: the message on one row if it fits, else on two. */
    method Unknown(name: string)
      requires Ready() && IsWord(name)
      modifies this, lines, console, console.buffer, display.buffer, display.bus
      ensures Valid() && inputPos == old(inputPos)
      ensures History() == Replay(old(History()), UnknownLines(name))
      ensures console.input == old(console.input) + Transcript(UnknownLines(name))
      ensures console.pos == 0
    {
      var fits := FitsRow(UnknownPrefix, name);
      Report(name, fits);
    }

    /** The unknown-command message on one row or on two, as the measured lengths say. */
    method Report(name: string, fits: bool)
      requires Ready() && IsWord(name)
      requires fits <==> |Console.Terminated(UnknownPrefix)| + |Console.Terminated(name)| <= RowChars
      modifies this, lines, console, console.buffer, display.buffer, display.bus
      ensures Valid() && inputPos == old(inputPos)
      ensures History() == Replay(old(History()), UnknownLines(name))
      ensures console.input == old(console.input) + Transcript(UnknownLines(name))
      ensures console.pos == 0
    {
      UnknownLengths(name);
      if fits {
        UnknownShort(name);
      } else {
        PrintPair(UnknownPrefix, name);
      }
    }

    /** The unknown-command message that fits one row, built in a local buffer and printed once. */
    method UnknownShort(name: string)
      requires Ready() && IsWord(name) && |UnknownPrefix| + |name| <= RowChars
      modifies this, lines, console, console.buffer, display.buffer, display.bus
      ensures Valid() && inputPos == old(inputPos)
      ensures History() == Replay(old(History()), [Show(UnknownPrefix + name)])
      ensures console.input == old(console.input) + Transcript([Show(UnknownPrefix + name)])
      ensures console.pos == 0
    {
      ghost var h0, i0 := History(), console.input;
      var message := ErrorMessage(name);
      Print(message);
      OneShow(h0, message, UnknownPrefix + name, History(), i0, console.input);
    }

    /** Two lines printed one after the other. */
    method PrintPair(first: string, second: string)
      requires Ready()
      modifies this, lines, console, console.buffer, display.buffer, display.bus
      ensures Valid() && inputPos == old(inputPos)
      ensures History() == Replay(old(History()), [Show(first), Show(second)])
      ensures console.input == old(console.input) + Transcript([Show(first), Show(second)])
      ensures console.pos == 0
    {
      ghost var h0, i0 := History(), console.input;
      Print(first);
      ShowStep(h0, [], first, h0, History(), i0, i0, console.input);
      ghost var h1, i1 := History(), console.input;
      Print(second);
      ShowStep(h0, [Show(first)], second, h1, History(), i0, i1, console.input);
    }

    /** The command table lookup of shell_execute and the call of the handler found. */
    method RunCommand(argv: seq<string>)
      requires Ready() && |argv| > 0 && forall k :: 0 <= k < |argv| ==> IsWord(argv[k])
      modifies this, lines, console, console.buffer, display.buffer, display.bus
      ensures Valid() && inputPos == old(inputPos)
      ensures History() == Replay(old(History()), Dispatch(argv))
      ensures console.input == old(console.input) + Transcript(Dispatch(argv))
      ensures console.pos == 0 || console.pos == old(console.pos)
    {
      var index := Lookup(argv[0]);
      DispatchOf(argv, index);
      Handle(argv, index);
    }

    /** The call of the handler the table lookup picked, or the unknown-command message. */
    method Handle(argv: seq<string>, index: int)
      requires Ready() && |argv| > 0 && forall k :: 0 <= k < |argv| ==> IsWord(argv[k])
      requires 0 <= index <= |Commands|
      modifies this, lines, console, console.buffer, display.buffer, display.bus
      ensures Valid() && inputPos == old(inputPos)
      ensures History() == Replay(old(History()), Handler(argv, index))
      ensures console.input == old(console.input) + Transcript(Handler(argv, index))
      ensures console.pos == 0 || console.pos == old(console.pos)
    {
      if index == 0 {
        Help();
      } else if index == 1 {
        ClearScreen();
        assert Replay(old(History()), [Wipe]) == [] && Transcript([Wipe]) == [];
      } else if index == 2 {
        Echo(argv);
      } else {
        Unknown(argv[0]);
      }
    }

    /**
     * shell_process_char: backspace or DEL erases the last char typed, newline or carriage
     * return runs the line and prints a fresh prompt, a printable char is appended while the
     * buffer has room; anything else is ignored. The char is taken as its low byte.
     */
    method ProcessChar(c: char)
      requires Valid()
      modifies this, input, lines, console, console.buffer, display.buffer, display.bus
      ensures Valid()
      ensures Line() == Edited(old(Line()), Console.CharByte(c))
      ensures History() == Replay(old(History()), KeyActions(old(Line()), Console.CharByte(c)))
      ensures console.input == old(console.input) + KeyEcho(old(Line()), Console.CharByte(c))
        + Transcript(KeyActions(old(Line()), Console.CharByte(c)))
      ensures (Console.CharByte(c) == 10 || Console.CharByte(c) == 13) ==> console.pos == 0
      ensures 32 <= Console.CharByte(c) <= 126 && old(console.pos) + 1 < Console.BufferSize ==>
        console.out == old(console.out)
    {
      var b := Console.CharByte(c);
      if b == 8 || b == 127 {
        Erase();
        return;
      }
      if b == 10 || b == 13 {
        Enter();
        return;
      }
      if 32 <= b <= 126 {
        if inputPos < MaxLineLength - 1 {
          Insert(b);
        }
      }
    }

    /** Backspace: the last char typed dropped and rubbed out on the terminal, if there is one. */
    method Erase()
      requires Valid()
      modifies this, input, console, console.buffer
      ensures Valid() && currentLine == old(currentLine)
      ensures Line() == if |old(Line())| > 0 then old(Line())[..|old(Line())| - 1] else old(Line())
      ensures console.input == old(console.input) + if |old(Line())| > 0 then [8, 32, 8] else []
    {
      if inputPos > 0 {
        inputPos := inputPos - 1;
        input[inputPos] := '\0';
        RubOut(console);
      }
    }

    /** A printable char appended to the line and echoed. */
    method Insert(b: bv8)
      requires Valid() && 32 <= b <= 126 && inputPos < MaxLineLength - 1
      modifies this, input, console, console.buffer
      ensures Valid() && currentLine == old(currentLine)
      ensures Line() == old(Line()) + [b as char]
      ensures console.input == old(console.input) + [b]
      ensures old(console.pos) + 1 < Console.BufferSize ==>
        console.out == old(console.out) && console.pos == old(console.pos) + 1
    {
      Append(b as char);
      console.Putc(b);
    }

    /** The char stored at the end of the line, the NUL after it. */
    method Append(c: char)
      requires Valid() && Printable(c) && inputPos < MaxLineLength - 1
      modifies this, input
      ensures Valid() && currentLine == old(currentLine) && Line() == old(Line()) + [c]
    {
      input[inputPos] := c;
      inputPos := inputPos + 1;
      input[inputPos] := '\0';
    }

    /** Newline: echoed, the line run if it is not empty, a fresh prompt printed, the line emptied. */
    method Enter()
      requires Valid()
      modifies this, input, lines, console, console.buffer, display.buffer, display.bus
      ensures Valid() && Line() == []
      ensures History() == Replay(old(History()), (if |old(Line())| > 0 then Response(old(Line())) else []) + [Show(">")])
      ensures console.input == old(console.input) + [10]
        + Transcript((if |old(Line())| > 0 then Response(old(Line())) else []) + [Show(">")])
      ensures console.pos == 0
    {
      ghost var h, l := History(), Line();
      console.Putc(10);
      input[inputPos] := '\0';
      assert History() == h && Line() == l;
      Submit();
    }

    /** The line run if it is not empty, then the prompt ">" printed and the line emptied. */
    method Submit()
      requires Valid()
      modifies this, input, lines, console, console.buffer, display.buffer, display.bus
      ensures Valid() && Line() == []
      ensures History() == Replay(old(History()), (if |old(Line())| > 0 then Response(old(Line())) else []) + [Show(">")])
      ensures console.input == old(console.input) + Transcript((if |old(Line())| > 0 then Response(old(Line())) else []) + [Show(">")])
      ensures console.pos == 0
    {
      ghost var h0, i0 := History(), console.input;
      ghost var acts := if |Line()| > 0 then Response(Line()) else [];
      RunLine();
      ghost var h1, i1 := History(), console.input;
      NewPrompt();
      Chain(h0, acts, [Show(">")], h1, History(), i0, i1, console.input);
    }

    /** The typed line run by shell_execute when it is not empty; the line itself kept. */
    method RunLine()
      requires Valid()
      modifies this, lines, console, console.buffer, display.buffer, display.bus
      ensures Valid() && Line() == old(Line())
      ensures History() == Replay(old(History()), if |old(Line())| > 0 then Response(old(Line())) else [])
      ensures console.input == old(console.input) + Transcript(if |old(Line())| > 0 then Response(old(Line())) else [])
      ensures console.pos == 0 || console.pos == old(console.pos)
    {
      if inputPos > 0 {
        LineRead(input[..], inputPos);
        Execute(input[..]);
      } else {
        assert console.input + [] == console.input;
      }
    }

    /** The prompt ">" printed after a line, and the input line emptied. */
    method NewPrompt()
      requires Valid()
      modifies this, input, lines, console, console.buffer, display.buffer, display.bus
      ensures Valid() && Line() == []
      ensures History() == Replay(old(History()), [Show(">")])
      ensures console.input == old(console.input) + Transcript([Show(">")])
      ensures console.pos == 0
    {
      ghost var h0, i0 := History(), console.input;
      Print(">");
      ShowStep(h0, [], ">", h0, History(), i0, i0, console.input);
      inputPos := 0;
      input[0] := '\0';
    }

    /**
     * shell_execute: the prompt line "> " and the command line printed, then the command
     * its arguments name run.
     */
    method Execute(cmdline: string)
      requires Ready()
      modifies this, lines, console, console.buffer, display.buffer, display.bus
      ensures Valid() && inputPos == old(inputPos)
      ensures History() == Replay(old(History()), Response(Console.Terminated(cmdline)))
      ensures console.input == old(console.input) + Transcript(Response(Console.Terminated(cmdline)))
      ensures console.pos == 0
    {
      ghost var line := Console.Terminated(cmdline);
      ghost var h0, i0 := History(), console.input;
      PrintPrompt(cmdline);
      ghost var h1, i1 := History(), console.input;
      Command(cmdline);
      Chain(h0, [Show(Prompt + Prefix(line, MaxLineLength - 3))], Dispatch(Args(line)), h1, History(), i0, i1, console.input);
    }

    /** The prompt line of shell_execute printed. */
    method PrintPrompt(cmdline: string)
      requires Ready()
      modifies this, lines, console, console.buffer, display.buffer, display.bus
      ensures Valid() && inputPos == old(inputPos)
      ensures History() == Replay(old(History()), [Show(Prompt + Prefix(Console.Terminated(cmdline), MaxLineLength - 3))])
      ensures console.input == old(console.input) + Transcript([Show(Prompt + Prefix(Console.Terminated(cmdline), MaxLineLength - 3))])
      ensures console.pos == 0
    {
      ghost var h0, i0 := History(), console.input;
      var promptLine := PromptLine(cmdline);
      TerminatedTwice(promptLine);
      Print(promptLine);
      OneShow(h0, promptLine, Console.Terminated(promptLine), History(), i0, console.input);
    }

    /** The rest of shell_execute: nothing for a blank line, else the command its arguments name. */
    method Command(cmdline: string)
      requires Valid()
      modifies this, lines, console, console.buffer, display.buffer, display.bus
      ensures Valid() && inputPos == old(inputPos)
      ensures History() == Replay(old(History()), Dispatch(Args(Console.Terminated(cmdline))))
      ensures console.input == old(console.input) + Transcript(Dispatch(Args(Console.Terminated(cmdline))))
      ensures console.pos == 0 || console.pos == old(console.pos)
    {
      var argv := ParseArgs(cmdline);
      if |argv| == 0 {
        return;
      }
      ArgsAreWords(Console.Terminated(cmdline));
      RunCommand(argv);
    }

    /**
     * shell_print: text and a newline to the console; the rows scrolled up by one if all are
     * in use; text, cut to a row, into the next row; the display refreshed.
     */
    method Print(text: string)
      requires Ready()
      modifies this, lines, console, console.buffer, display.buffer, display.bus
      ensures Valid() && inputPos == old(inputPos)
      ensures History() == Scrolled(old(History()), Copied(text, RowSize))
      ensures console.input == old(console.input) + Console.Expand(text) + Console.Expand("\n")
      ensures console.pos == 0
    {
      PutLine(text);
      AddRow(text);
      Refresh();
    }

    /** The console part of shell_print: text, then a newline, each with console_puts. */
    method PutLine(text: string)
      requires Ready()
      modifies console, console.buffer
      ensures Ready()
      ensures console.input == old(console.input) + Console.Expand(text) + Console.Expand("\n")
      ensures console.pos == 0
    {
      console.Puts(text);
      console.Puts("\n");
    }

    /** The row update of shell_print: scroll if every row is in use, then text into the next row. */
    method AddRow(text: string)
      requires Buffers()
      modifies this, lines
      ensures Buffers() && inputPos == old(inputPos)
      ensures History() == Scrolled(old(History()), Copied(text, RowSize))
    {
      ghost var hist := History();
      ghost var rows0 := RowsOf(lines[..]);
      if currentLine >= MaxLines {
        ScrollUp();
        currentLine := MaxLines - 1;
      }
      ghost var cells := lines[..];
      ghost var row := Copied(text, RowSize);
      StrCopy(lines, RowSize * currentLine, text, RowSize);
      RowPut(cells, lines[..], currentLine, row);
      PrintRows(hist, rows0, RowsOf(cells), RowsOf(lines[..]), currentLine, row);
      currentLine := currentLine + 1;
    }

    /** The scroll loop of shell_print: row i + 1 copied to row i for each i < MaxLines - 1. */
    method ScrollUp()
      requires lines.Length == MaxLines * RowSize && RowsFit(RowsOf(lines[..]), MaxLines)
      modifies lines
      ensures RowsOf(lines[..]) == RowsOf(old(lines[..]))[1..] + [RowsOf(old(lines[..]))[MaxLines - 1]]
    {
      ghost var rows := RowsOf(lines[..]);
      for i := 0 to MaxLines - 1
        invariant ShiftedUpTo(RowsOf(lines[..]), rows, i)
      {
        ghost var cells := lines[..];
        StrCopy(lines, RowSize * i, lines[RowSize * (i + 1) .. RowSize * (i + 1) + RowSize], RowSize);
        ScrollStep(cells, lines[..], rows, i);
      }
      assert RowsOf(lines[..]) == rows[1..] + [rows[MaxLines - 1]];
    }
  }

  /** Rows 0 .. i - 1 of cur hold rows 1 .. i of rows; the others are still those of rows. */
  ghost predicate ShiftedUpTo(cur: seq<string>, rows: seq<string>, i: int)
  {
    |cur| == |rows| == MaxLines && 0 <= i < MaxLines &&
    (forall j | 0 <= j < i :: cur[j] == rows[j + 1]) && (forall j | i <= j < MaxLines :: cur[j] == rows[j])
  }

  /** One round of the scroll loop: row i + 1 copied over row i. */
  lemma ScrollStep(cells: seq<char>, cells': seq<char>, rows: seq<string>, i: int)
    requires |cells| == |cells'| == MaxLines * RowSize && 0 <= i < MaxLines - 1
    requires ShiftedUpTo(RowsOf(cells), rows, i) && RowsFit(rows, MaxLines)
    requires var t := Copied(cells[RowSize * (i + 1) .. RowSize * (i + 1) + RowSize], RowSize);
      (forall k | 0 <= k < |cells| && !(RowSize * i <= k <= RowSize * i + |t|) :: cells'[k] == cells[k]) &&
      Console.Terminated(cells'[RowSize * i..]) == t
    ensures ShiftedUpTo(RowsOf(cells'), rows, i + 1)
  {
    assert RowsOf(cells)[i + 1] == rows[i + 1];
    RowPut(cells, cells', i, rows[i + 1]);
  }

  /** The rows after shell_print's scroll and row write, in terms of the rows in use before. */
  lemma PrintRows(hist: seq<string>, rows0: seq<string>, rows1: seq<string>, rows2: seq<string>, cur: int, row: string)
    requires |hist| <= MaxLines && RowsFit(rows0, |hist|) && hist == rows0[..|hist|] && |row| <= RowChars
    requires |hist| == MaxLines ==> cur == MaxLines - 1 && rows1 == rows0[1..] + [rows0[MaxLines - 1]]
    requires |hist| < MaxLines ==> cur == |hist| && rows1 == rows0
    requires rows2 == rows1[cur := row]
    ensures RowsFit(rows2, cur + 1) && rows2[..cur + 1] == Scrolled(hist, row)
  {
    if |hist| == MaxLines {
      assert rows2 == rows0[1..] + [row];
      assert hist == rows0;
    } else {
      assert rows2[..cur + 1] == hist + [row];
    }
  }

  /** One more printed line: the rows and the console bytes follow the actions with it appended. */
  lemma ShowStep(h0: seq<string>, acts: seq<Action>, t: string, h1: seq<string>, h2: seq<string>,
                 i0: seq<bv8>, i1: seq<bv8>, i2: seq<bv8>)
    requires h1 == Replay(h0, acts) && h2 == Scrolled(h1, Copied(t, RowSize))
    requires i1 == i0 + Transcript(acts) && i2 == i1 + Console.Expand(t) + Console.Expand("\n")
    ensures h2 == Replay(h0, acts + [Show(t)]) && i2 == i0 + Transcript(acts + [Show(t)])
  {
    ReplayAppend(h0, acts, [Show(t)]);
    TranscriptAppend(acts, [Show(t)]);
    assert Transcript([Show(t)]) == Console.Expand(t) + Console.Expand("\n") + [];
    Seqs.AppendAssoc(i0, Transcript(acts), Console.Expand(t) + Console.Expand("\n"));
    Seqs.AppendAssoc(i1, Console.Expand(t), Console.Expand("\n"));
  }

  /** One printed string that reads as t: the rows and the console bytes follow the action Show(t). */
  lemma OneShow(h0: seq<string>, s: string, t: string, h1: seq<string>, i0: seq<bv8>, i1: seq<bv8>)
    requires Console.Terminated(s) == Console.Terminated(t)
    requires h1 == Scrolled(h0, Copied(s, RowSize)) && i1 == i0 + Console.Expand(s) + Console.Expand("\n")
    ensures h1 == Replay(h0, [Show(t)]) && i1 == i0 + Transcript([Show(t)])
  {
    SameText(s, t);
    ShowStep(h0, [], t, h0, h1, i0, i0, i1);
  }

  /** A line without a NUL that fits a row is stored whole. */
  lemma CopiedPlain(t: string)
    requires NoNul(t) && |t| <= RowChars
    ensures Copied(t, RowSize) == t
  {
    Console.TerminatedPlain(t);
  }

  /**
   * Lines that fit a row each, printed while rows are free, are added below the rows in
   * use, whole and in order.
   */
  lemma {:induction false} ReplayShows(h: seq<string>, texts: seq<string>)
    requires |h| + |texts| <= MaxLines
    requires forall k :: 0 <= k < |texts| ==> NoNul(texts[k]) && |texts[k]| <= RowChars
    ensures Replay(h, Shows(texts)) == h + texts
    decreases |texts|
  {
    if |texts| == 0 {
      assert h + texts == h;
    } else {
      var acts := Shows(texts);
      assert acts[1..] == Shows(texts[1..]);
      CopiedPlain(texts[0]);
      assert Apply(h, acts[0]) == h + [texts[0]];
      ReplayShows(h + [texts[0]], texts[1..]);
      assert (h + [texts[0]]) + texts[1..] == h + texts;
    }
  }

  /** The banner lines fit a display row each, so the screen shows them whole. */
  lemma BannerRows()
    ensures Shows(Banner) == [] + [Show(Banner[0])] + [Show(Banner[1])] + [Show(Banner[2])]
    ensures Replay([], Shows(Banner)) == Banner
  {
    assert NoNul(Banner[0]) && NoNul(Banner[1]) && NoNul(Banner[2]);
    ReplayShows([], Banner);
    ShowsThree(Banner);
  }

  /** Shows of a three-line list, spelled out; stated for any list so that no string literal is unfolded. */
  lemma ShowsThree(texts: seq<string>)
    requires |texts| == 3
    ensures Shows(texts) == [] + [Show(texts[0])] + [Show(texts[1])] + [Show(texts[2])]
  {
  }

  /** Shows of a four-line list, spelled out; stated for any list so that no string literal is unfolded. */
  lemma ShowsFour(texts: seq<string>)
    requires |texts| == 4
    ensures Shows(texts) == [] + [Show(texts[0])] + [Show(texts[1])] + [Show(texts[2])] + [Show(texts[3])]
  {
  }

  /** Two strings that read alike are stored and sent alike. */
  lemma SameText(s: string, t: string)
    requires Console.Terminated(s) == Console.Terminated(t)
    ensures Copied(s, RowSize) == Copied(t, RowSize)
    ensures Console.Expand(s) == Console.Expand(t)
  {
    ExpandTerminated(s);
    ExpandTerminated(t);
  }

  lemma PrefixPlain()
    ensures NoNul(UnknownPrefix) && Console.Terminated(UnknownPrefix) == UnknownPrefix && |UnknownPrefix| == 17
  {
    assert NoNul(UnknownPrefix);
    Console.TerminatedPlain(UnknownPrefix);
  }

  /** A string whose first n chars have no NUL and whose rest reads as t reads as those chars then t. */
  lemma TerminatedJoin(s: string, n: int, t: string)
    requires 0 <= n <= |s| && NoNul(s[..n]) && Console.Terminated(s[n..]) == t
    ensures Console.Terminated(s) == s[..n] + t
  {
    TerminatedShape(s[n..]);
    assert EndsAt(s[n..], |t|);
    assert EndsAt(s, n + |t|) by {
      forall k | 0 <= k < n + |t| ensures s[k] != '\0' {
        if k < n { assert s[..n][k] == s[k]; } else { assert s[n..][k - n] == s[k]; }
      }
      if n + |t| < |s| { assert s[n..][|t|] == s[n + |t|]; }
    }
    TerminatedEndsAt(s, n + |t|);
    assert s[..n + |t|] == s[..n] + s[n..][..|t|];
  }

  /** The two copies of the unknown-command branch build the prefix followed by the name. */
  lemma UnknownMessage(first: seq<char>, second: seq<char>, name: string)
    requires |first| == |second| == MaxLineLength && IsWord(name) && |UnknownPrefix| + |name| <= RowChars
    requires Console.Terminated(first[0..]) == Copied(UnknownPrefix, MaxLineLength)
    requires forall k | 0 <= k < |first| && !(|UnknownPrefix| <= k <= |UnknownPrefix| + |Copied(name, MaxLineLength - |UnknownPrefix|)|) :: second[k] == first[k]
    requires Console.Terminated(second[|UnknownPrefix|..]) == Copied(name, MaxLineLength - |UnknownPrefix|)
    ensures Console.Terminated(second) == UnknownPrefix + name
  {
    PrefixPlain();
    Console.TerminatedPlain(name);
    assert first[0..] == first;
    TerminatedShape(first);
    assert second[..17] == UnknownPrefix by {
      forall k | 0 <= k < 17 ensures second[k] == UnknownPrefix[k] {
        assert first[k] == Console.Terminated(first)[k];
      }
    }
    TerminatedJoin(second, 17, name);
  }

  /** The command names have no NUL, so str_equals compares them whole. */
  lemma CommandsPlain()
    ensures forall k :: 0 <= k < |Commands| ==> Console.Terminated(Commands[k]) == Commands[k]
  {
    assert NoNul(Commands[0]) && NoNul(Commands[1]) && NoNul(Commands[2]);
    Console.TerminatedPlain(Commands[0]);
    Console.TerminatedPlain(Commands[1]);
    Console.TerminatedPlain(Commands[2]);
  }

  /**
   * The command table search: the index of the first command whose name reads as `name`,
   * or |Commands| when none does.
   */
  method Lookup(name: string) returns (index: int)
    ensures 0 <= index <= |Commands|
    ensures index < |Commands| ==> Console.Terminated(name) == Commands[index]
    ensures forall k :: 0 <= k < index ==> Console.Terminated(name) != Commands[k]
  {
    CommandsPlain();
    index := 0;
    while index < |Commands|
      invariant 0 <= index <= |Commands|
      invariant forall k :: 0 <= k < index ==> Console.Terminated(name) != Commands[k]
    {
      var eq := StrEquals(name, Commands[index]);
      if eq {
        return;
      }
      index := index + 1;
    }
  }

  /** The echo message has no NUL: it reads back whole. */
  lemma EchoPlain(argv: seq<string>)
    requires |argv| >= 2 && forall k :: 0 <= k < |argv| ==> NoNul(argv[k])
    ensures Console.Terminated(EchoText(argv)) == EchoText(argv)
  {
    var args := argv[1..];
    forall k | 0 <= k < |args| ensures NoNul(args[k]) {
      assert args[k] == argv[k + 1];
    }
    JoinedNoNul(args, |args|);
    Console.TerminatedPlain(EchoText(argv));
  }

  /** Whether a followed by b fits one display row, measured with str_len. */
  method FitsRow(a: string, b: string) returns (fits: bool)
    ensures fits <==> |Console.Terminated(a)| + |Console.Terminated(b)| <= RowChars
  {
    var aLen := StrLen(a);
    var bLen := StrLen(b);
    fits := aLen + bLen <= RowChars;
  }

  /** The lengths the unknown-command branch compares, and the one-row message read whole. */
  lemma UnknownLengths(name: string)
    requires IsWord(name)
    ensures |Console.Terminated(UnknownPrefix)| == |UnknownPrefix| == 17
    ensures |Console.Terminated(name)| == |name|
    ensures Console.Terminated(UnknownPrefix + name) == UnknownPrefix + name
  {
    PrefixPlain();
    Console.TerminatedPlain(name);
    PlainJoin(UnknownPrefix, name);
  }

  lemma PlainJoin(a: string, b: string)
    requires NoNul(a) && NoNul(b)
    ensures Console.Terminated(a + b) == a + b
  {
    var t := a + b;
    assert NoNul(t) by {
      forall k | 0 <= k < |t| ensures t[k] != '\0' {
        if k >= |a| { assert t[k] == b[k - |a|]; } else { assert t[k] == a[k]; }
      }
    }
    Console.TerminatedPlain(t);
  }

  /** The one-row message of the unknown-command branch, built with two str_copy calls into a local buffer. */
  method ErrorMessage(name: string) returns (message: string)
    requires IsWord(name) && |UnknownPrefix| + |name| <= RowChars
    ensures Console.Terminated(message) == UnknownPrefix + name == Console.Terminated(UnknownPrefix + name)
  {
    UnknownLengths(name);
    PrefixPlain();
    var errMsg := new char[MaxLineLength];
    StrCopy(errMsg, 0, UnknownPrefix, MaxLineLength);
    ghost var first := errMsg[..];
    StrCopy(errMsg, |UnknownPrefix|, name, MaxLineLength - |UnknownPrefix|);
    UnknownMessage(first, errMsg[..], name);
    message := errMsg[..];
  }

  /** The action list of the handler the table lookup picked. */
  lemma DispatchOf(argv: seq<string>, index: int)
    requires |argv| > 0 && IsWord(argv[0]) && 0 <= index <= |Commands|
    requires index < |Commands| ==> Console.Terminated(argv[0]) == Commands[index]
    requires forall k :: 0 <= k < index ==> Console.Terminated(argv[0]) != Commands[k]
    ensures Dispatch(argv) == Handler(argv, index)
  {
    Console.TerminatedPlain(argv[0]);
  }

  /** What the handler at position index of the command table does; index |Commands| is "not found". */
  function Handler(argv: seq<string>, index: int): seq<Action>
    requires |argv| > 0
  {
    if index == 0 then Shows(HelpText)
    else if index == 1 then [Wipe]
    else if index == 2 then [Show(if |argv| < 2 then Usage else EchoText(argv))]
    else UnknownLines(argv[0])
  }

  // ---------------------------------------------------------------------------
  // Command lines: the prompt line and the argument parser

  /** A word measured up to a NUL is measured alike in what the string reads as. */
  lemma {:induction false} WordLenTerminated(s: string)
    ensures WordLen(s) == WordLen(Console.Terminated(s))
    decreases |s|
  {
    if |s| > 0 && s[0] != ' ' && s[0] != '\0' {
      WordLenTerminated(s[1..]);
      assert Console.Terminated(s)[1..] == Console.Terminated(s[1..]);
    }
  }

  /** The tokenizer stops at the first NUL: a string splits into the words of what it reads as. */
  lemma {:induction false} WordsTerminated(s: string)
    ensures Words(s) == Words(Console.Terminated(s))
    decreases |s|
  {
    var t := Console.Terminated(s);
    TerminatedShape(s);
    if |s| > 0 && s[0] != '\0' {
      assert |t| > 0 && t[0] == s[0];
      if s[0] == ' ' {
        TerminatedFrom(s, 1);
        WordsTerminated(s[1..]);
      } else {
        var n := WordLen(s);
        WordLenTerminated(s);
        assert s[..n] == t[..n];
        TerminatedFrom(s, n);
        WordsTerminated(s[n..]);
      }
    }
  }

  /** Every argument a command line yields is a word. */
  lemma ArgsAreWords(line: string)
    ensures forall k :: 0 <= k < |Args(line)| ==> IsWord(Args(line)[k])
  {
    var buf := Prefix(line[LeadingSpaces(line)..], MaxLineLength - 1);
    WordsAreWords(buf);
    assert forall k :: 0 <= k < |Args(line)| ==> Args(line)[k] == Words(buf)[k];
  }

  /**
   * The prompt line of shell_execute: "> " in a local buffer, the command line copied after
   * it, cut to what the rest of the buffer holds.
   */
  method PromptLine(cmdline: string) returns (s: string)
    ensures Console.Terminated(s) == Prompt + Prefix(Console.Terminated(cmdline), MaxLineLength - 3)
  {
    var promptLine := new char[MaxLineLength](_ => '\0');
    promptLine[0] := '>';
    promptLine[1] := ' ';
    StrCopy(promptLine, 2, cmdline, MaxLineLength - 2);
    assert promptLine[..][..2] == Prompt;
    assert promptLine[..][2..] == promptLine[2..];
    TerminatedJoin(promptLine[..], 2, Copied(cmdline, MaxLineLength - 2));
    s := promptLine[..];
  }

  /**
   * The parsing half of shell_execute: skip the leading spaces, stop on an empty line, copy
   * the rest into args_buffer and split it into arguments.
   */
  method ParseArgs(cmdline: string) returns (argv: seq<string>)
    ensures argv == Args(Console.Terminated(cmdline))
  {
    ghost var line := Console.Terminated(cmdline);
    TerminatedShape(cmdline);
    var start := SkipSpaces(cmdline, 0);
    assert start <= |line|;
    assert line == cmdline[..|line|];
    LeadingSpacesAt(line, start);
    TerminatedFrom(cmdline, start);
    if start >= |cmdline| || cmdline[start] == '\0' {
      assert line[start..] == [];
      return [];
    }
    var argsBuffer := new char[MaxLineLength](_ => '\0');
    StrCopy(argsBuffer, 0, cmdline[start..], MaxLineLength);
    assert argsBuffer[0..] == argsBuffer[..];
    WordsTerminated(argsBuffer[..]);
    argv := Tokenize(argsBuffer[..]);
  }

  /** Two runs of actions one after the other: the rows and the console bytes follow the whole run. */
  lemma Chain(h0: seq<string>, a: seq<Action>, b: seq<Action>, h1: seq<string>, h2: seq<string>,
              i0: seq<bv8>, i1: seq<bv8>, i2: seq<bv8>)
    requires h1 == Replay(h0, a) && h2 == Replay(h1, b)
    requires i1 == i0 + Transcript(a) && i2 == i1 + Transcript(b)
    ensures h2 == Replay(h0, a + b) && i2 == i0 + Transcript(a + b)
  {
    ReplayAppend(h0, a, b);
    TranscriptAppend(a, b);
    Seqs.AppendAssoc(i0, Transcript(a), Transcript(b));
  }

  /** What a string reads as reads back as itself. */
  lemma TerminatedTwice(s: string)
    ensures Console.Terminated(Console.Terminated(s)) == Console.Terminated(s)
  {
    TerminatedShape(s);
    Console.TerminatedPlain(Console.Terminated(s));
  }

  /** The input buffer, printable up to its NUL at pos, reads as the line typed. */
  lemma LineRead(buf: string, pos: int)
    requires 0 <= pos < |buf| && buf[pos] == '\0' && forall k :: 0 <= k < pos ==> Printable(buf[k])
    ensures Console.Terminated(buf) == buf[..pos]
  {
    TerminatedEndsAt(buf, pos);
  }

  /** The three bytes shell_process_char sends to rub out a char: backspace, space, backspace. */
  method RubOut(console: Console.Transmitter)
    requires console.Valid()
    modifies console, console.buffer
    ensures console.Valid() && console.input == old(console.input) + [8, 32, 8]
  {
    console.Putc(8);
    console.Putc(32);
    console.Putc(8);
  }

  // ---------------------------------------------------------------------------
  // Properties of the shell as a whole

  /** The leading spaces counted are spaces. */
  lemma {:induction false} LeadingSpacesAre(s: string)
    ensures forall k :: 0 <= k < LeadingSpaces(s) ==> s[k] == ' '
    decreases |s|
  {
    if |s| > 0 && s[0] == ' ' {
      LeadingSpacesAre(s[1..]);
      forall k | 0 < k < LeadingSpaces(s) ensures s[k] == ' ' {
        assert s[k] == s[1..][k - 1];
      }
    }
  }

  /**
   * A line the input buffer can hold (at most MaxLineLength - 1 chars) is parsed into its
   * first MaxArgs space-separated words: neither the space skipping nor the copy into
   * args_buffer changes what the tokenizer sees.
   */
  lemma ArgsOfLine(line: string)
    requires |line| <= MaxLineLength - 1
    ensures Args(line) == Prefix(Words(line), MaxArgs)
  {
    var n := LeadingSpaces(line);
    LeadingSpacesAre(line);
    WordsSkip(line, 0, n);
    assert line[0..] == line;
  }

  /**
   * echo round trip: when the arguments after "echo" fit the message buffer, echo prints
   * them joined by single spaces, and splitting that line again gives the arguments back.
   */
  lemma EchoRoundTrip(line: string)
    requires |Args(line)| >= 2 && Args(line)[0] == "echo"
    requires |Join(Args(line)[1..])| <= MaxLineLength - 2
    ensures Dispatch(Args(line)) == [Show(Join(Args(line)[1..]))]
    ensures Words(Join(Args(line)[1..])) == Args(line)[1..]
  {
    var argv := Args(line);
    var args := argv[1..];
    ArgsAreWords(line);
    assert forall k :: 0 <= k < |args| ==> IsWord(args[k]) by {
      forall k | 0 <= k < |args| ensures IsWord(args[k]) {
        assert args[k] == argv[k + 1];
      }
    }
    EchoJoins(args);
    WordsOfJoin(args);
  }

  /**
   * After a printable char is typed into a line with room for it, backspace gives the line
   * back, and the terminal sees the char and then the rub-out sequence.
   */
  lemma TypeThenErase(line: string, b: bv8)
    requires |line| < MaxLineLength - 1 && 32 <= b <= 126
    ensures Edited(Edited(line, b), 8) == line
    ensures KeyEcho(line, b) + KeyEcho(Edited(line, b), 8) == [b, 8, 32, 8]
    ensures KeyActions(line, b) == [] && KeyActions(Edited(line, b), 8) == []
  {
    assert (line + [b as char])[..|line|] == line;
  }

  /**
   * The line editor keeps what the input buffer can hold: at most MaxLineLength - 1
   * printable chars, whatever byte is typed.
   */
  lemma EditedFits(line: string, b: bv8)
    requires |line| <= MaxLineLength - 1 && forall k :: 0 <= k < |line| ==> Printable(line[k])
    ensures |Edited(line, b)| <= MaxLineLength - 1
    ensures forall k :: 0 <= k < |Edited(line, b)| ==> Printable(Edited(line, b)[k])
  {
    var e := Edited(line, b);
    if !IsErase(b) && !IsEnter(b) && 32 <= b <= 126 && |line| < MaxLineLength - 1 {
      assert e == line + [b as char];
      assert e[|line|] == b as char;
    }
  }

  /**
   * Printing a line keeps at most the last MaxLines rows: the new row last, the rows before
   * it the most recent of the old ones.
   */
  lemma ScrolledLast(hist: seq<string>, row: string)
    requires |hist| <= MaxLines
    ensures var r := Scrolled(hist, row);
      |r| == (if |hist| < MaxLines then |hist| + 1 else MaxLines) &&
      r == (hist + [row])[|hist| + 1 - |r|..]
  {
    var r := Scrolled(hist, row);
    if |hist| == MaxLines {
      assert (hist + [row])[1..] == hist[1..] + [row];
    } else {
      assert (hist + [row])[0..] == hist + [row];
    }
  }

  /**
   * Lines without a NUL printed while rows are free are added below the rows in use, in
   * order, each cut to the RowChars chars a row holds.
   */
  lemma {:induction false} ReplayCut(h: seq<string>, texts: seq<string>)
    requires |h| + |texts| <= MaxLines && forall k :: 0 <= k < |texts| ==> NoNul(texts[k])
    ensures Replay(h, Shows(texts)) == h + seq(|texts|, k requires 0 <= k < |texts| => Prefix(texts[k], RowChars))
    decreases |texts|
  {
    var cut := seq(|texts|, k requires 0 <= k < |texts| => Prefix(texts[k], RowChars));
    if |texts| == 0 {
      assert h + cut == h;
    } else {
      var acts := Shows(texts);
      assert acts[1..] == Shows(texts[1..]);
      Console.TerminatedPlain(texts[0]);
      assert Apply(h, acts[0]) == h + [cut[0]];
      ReplayCut(h + [cut[0]], texts[1..]);
      assert (h + [cut[0]]) + cut[1..] == h + cut;
    }
  }

  /**
   * What help shows on an empty screen: its four lines, each cut to the 21 chars a row
   * holds, so the third loses its last letter.
   */
  lemma HelpOnScreen()
    ensures Replay([], Shows(HelpText)) ==
      ["Available commands:", "  help  - Show help", "  clear - Clear scree", "  echo  - Echo text"]
  {
    HelpPlain();
    ReplayCut([], HelpText);
    HelpCut(HelpText);
  }

  lemma HelpPlain()
    ensures forall k :: 0 <= k < |HelpText| ==> NoNul(HelpText[k])
  {
    assert NoNul(HelpText[0]) && NoNul(HelpText[1]) && NoNul(HelpText[2]) && NoNul(HelpText[3]);
  }

  /**
   * The help lines cut to a row. The list is a parameter equal to HelpText, not the constant
   * itself, so that the verifier unfolds the literal only here.
   */
  lemma HelpCut(texts: seq<string>)
    requires texts == HelpText
    ensures [] + seq(|texts|, k requires 0 <= k < |texts| => Prefix(texts[k], RowChars)) ==
      ["Available commands:", "  help  - Show help", "  clear - Clear scree", "  echo  - Echo text"]
  {
    assert Prefix(texts[0], RowChars) == texts[0];
    assert Prefix(texts[1], RowChars) == texts[1];
    assert Prefix(texts[2], RowChars) == "  clear - Clear scree";
    assert Prefix(texts[3], RowChars) == texts[3];
  }
}
