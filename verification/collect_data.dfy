/** The string helpers of the two data-collection harnesses: single-quote
    shell escaping of file names, the scan that picks the first number out of
    a tool's output line, and the two orders in which they strip a path down
    to a base name. */
module CollectData {
  import opened Common

  const QUOTE: char := '\''
  const BACKSLASH: char := '\\'

  /** The escape of one character: a quote closes the quoted string, adds an escaped quote and reopens it. */
  function EscapeChar(c: char): string
  {
    if c == QUOTE then [QUOTE, BACKSLASH, QUOTE, QUOTE] else [c]
  }

  /** The characters between the outer quotes. */
  function EscapeBody(s: string): string
  {
    if |s| == 0 then [] else EscapeChar(s[0]) + EscapeBody(s[1..])
  }

  /** `escape_shell`: the escaped characters inside a pair of single quotes. */
  function EscapeShell(s: string): (e: string)
    ensures |e| >= 2 && e[0] == QUOTE && e[|e| - 1] == QUOTE
  {
    [QUOTE] + EscapeBody(s) + [QUOTE]
  }

  /** The number of single quotes in `s`. */
  function CountQuotes(s: string): nat
  {
    if |s| == 0 then 0 else (if s[0] == QUOTE then 1 else 0) + CountQuotes(s[1..])
  }

  /** Each quote costs three extra characters, and the outer quotes two. */
  lemma {:induction false} EscapeShellLength(s: string)
    ensures |EscapeShell(s)| == |s| + 2 + 3 * CountQuotes(s)
  {
    EscapeBodyLength(s);
  }

  lemma {:induction false} EscapeBodyLength(s: string)
    ensures |EscapeBody(s)| == |s| + 3 * CountQuotes(s)
  {
    if |s| > 0 {
      EscapeBodyLength(s[1..]);
    }
  }

  /** Adds a character in front of a successful result. */
  function Prepend(c: char, r: Option<string>): Option<string>
  {
    if r.None? then None else Some([c] + r.value)
  }

  /** How a POSIX shell reads one word made of unquoted characters, backslash escapes and single-quoted strings;
      `None` for an unterminated quote or a trailing backslash. */
  function ShellWord(w: string): Option<string>
    decreases |w|, 1
  {
    if |w| == 0 then Some([])
    else if w[0] == QUOTE then ShellQuoted(w[1..])
    else if w[0] == BACKSLASH then (if |w| < 2 then None else Prepend(w[1], ShellWord(w[2..])))
    else Prepend(w[0], ShellWord(w[1..]))
  }

  /** The rest of a word inside single quotes, where every character but the closing quote is literal. */
  function ShellQuoted(w: string): Option<string>
    decreases |w|, 0
  {
    if |w| == 0 then None
    else if w[0] == QUOTE then ShellWord(w[1..])
    else Prepend(w[0], ShellQuoted(w[1..]))
  }

  /** The shell reads an escaped name back as the name itself, whatever quotes it holds. */
  lemma EscapeShellRoundTrip(s: string)
    ensures ShellWord(EscapeShell(s)) == Some(s)
  {
    QuotedRoundTrip(s);
    assert EscapeShell(s)[1..] == EscapeBody(s) + [QUOTE];
  }

  lemma {:induction false} QuotedRoundTrip(s: string)
    ensures ShellQuoted(EscapeBody(s) + [QUOTE]) == Some(s)
  {
    if |s| == 0 {
      var w: string := [QUOTE];
      assert w[1..] == [];
    } else {
      var tail := EscapeBody(s[1..]) + [QUOTE];
      QuotedRoundTrip(s[1..]);
      assert EscapeBody(s) + [QUOTE] == EscapeChar(s[0]) + tail;
      if s[0] == QUOTE {
        var reopen := [QUOTE] + tail;
        var escaped := [BACKSLASH, QUOTE, QUOTE] + tail;
        var w := [QUOTE] + escaped;
        assert reopen[1..] == tail;
        assert ShellWord(reopen) == Some(s[1..]);
        assert escaped[2..] == reopen;
        assert ShellWord(escaped) == Some([QUOTE] + s[1..]);
        assert w[1..] == escaped;
        assert EscapeChar(s[0]) + tail == w;
      } else {
        assert ([s[0]] + tail)[1..] == tail;
      }
      assert s == [s[0]] + s[1..];
    }
  }

  /** The characters `extract_number` collects: digits, `.` and `-`. */
  predicate NumberChar(c: char)
  {
    ('0' <= c <= '9') || c == '.' || c == '-'
  }

  /** The scan loop of `extract_number`: skip until a number character, collect while they last, stop at the first
      other character once something was collected. */
  function Scan(s: string, acc: string): string
  {
    if |s| == 0 then acc
    else if NumberChar(s[0]) then Scan(s[1..], acc + [s[0]])
    else if |acc| > 0 then acc
    else Scan(s[1..], acc)
  }

  /** The token the scan hands to the number parser. */
  function NumberToken(s: string): string
  {
    Scan(s, [])
  }

  /** Where the first number character is, or the end when there is none. */
  function FirstNumberIndex(s: string): (i: nat)
    ensures i <= |s|
    ensures forall k :: 0 <= k < i ==> !NumberChar(s[k])
    ensures i < |s| ==> NumberChar(s[i])
  {
    if |s| == 0 || NumberChar(s[0]) then 0 else 1 + FirstNumberIndex(s[1..])
  }

  /** Where the run of number characters starting at `i` ends. */
  function RunEnd(s: string, i: nat): (j: nat)
    requires i <= |s|
    ensures i <= j <= |s|
    ensures forall k :: i <= k < j ==> NumberChar(s[k])
    ensures j < |s| ==> !NumberChar(s[j])
    decreases |s| - i
  {
    if i == |s| || !NumberChar(s[i]) then i else RunEnd(s, i + 1)
  }

  /** The scan collects exactly the first maximal run of number characters. */
  lemma NumberTokenIsFirstRun(s: string)
    ensures var i := FirstNumberIndex(s);
            NumberToken(s) == s[i..RunEnd(s, i)]
  {
    SkipThenCollect(s);
  }

  lemma {:induction false} SkipThenCollect(s: string)
    ensures var i := FirstNumberIndex(s);
            Scan(s, []) == s[i..RunEnd(s, i)]
  {
    if |s| > 0 && !NumberChar(s[0]) {
      SkipThenCollect(s[1..]);
      var i := FirstNumberIndex(s[1..]);
      RunEndShift(s, i);
    } else if |s| > 0 {
      Collect(s, [], 0);
    }
  }

  /** Skipping a leading character shifts the run boundaries by one. */
  lemma {:induction false} RunEndShift(s: string, i: nat)
    requires |s| > 0 && i <= |s| - 1
    ensures RunEnd(s, i + 1) == RunEnd(s[1..], i) + 1
    decreases |s| - i
  {
    if i + 1 < |s| && NumberChar(s[i + 1]) {
      RunEndShift(s, i + 1);
    }
  }

  /** Once collecting, the scan appends the rest of the run and stops at its end. */
  lemma {:induction false} Collect(s: string, acc: string, i: nat)
    requires i < |s| && NumberChar(s[i])
    requires acc == s[FirstNumberIndex(s)..i] && FirstNumberIndex(s) <= i
    ensures Scan(s[i..], acc) == s[FirstNumberIndex(s)..RunEnd(s, i)]
    decreases |s| - i
  {
    var start := FirstNumberIndex(s);
    var acc' := acc + [s[i]];
    assert s[i..][1..] == s[i + 1..];
    assert acc' == s[start..i + 1];
    if i + 1 < |s| && NumberChar(s[i + 1]) {
      Collect(s, acc', i + 1);
    } else if i + 1 < |s| {
      assert s[i + 1..][0] == s[i + 1];
    }
  }

  /** The index of the last occurrence of `c`, as `find_last_of` reports it. */
  function FindLastOf(s: string, c: char): (r: Option<nat>)
    ensures r.Some? ==> r.value < |s| && s[r.value] == c && forall k :: r.value < k < |s| ==> s[k] != c
    ensures r.None? ==> forall k :: 0 <= k < |s| ==> s[k] != c
  {
    if |s| == 0 then None
    else if s[|s| - 1] == c then Some(|s| - 1)
    else FindLastOf(s[..|s| - 1], c)
  }

  /** Any index holding the last occurrence is the one `FindLastOf` finds. */
  lemma LastOfUnique(s: string, c: char, i: nat)
    requires i < |s| && s[i] == c && forall k :: i < k < |s| ==> s[k] != c
    ensures FindLastOf(s, c) == Some(i)
  {
  }

  /** The extension strip: everything before the last `.`. */
  function StripExtension(s: string): string
  {
    match FindLastOf(s, '.')
    case None => s
    case Some(i) => s[..i]
  }

  /** The directory strip: everything after the last `/`. */
  function StripDirectory(s: string): (r: string)
    ensures forall k :: 0 <= k < |r| ==> r[k] != '/'
  {
    match FindLastOf(s, '/')
    case None => s
    case Some(i) => s[i + 1..]
  }

  /** The bit-stream harness strips the extension first, then the directory. */
  function BaseNameExtensionFirst(path: string): (b: string)
    ensures forall k :: 0 <= k < |b| ==> b[k] != '/'
  {
    StripDirectory(StripExtension(path))
  }

  /** The sound-file harness strips the directory first, then the extension. */
  function BaseNameDirectoryFirst(path: string): (b: string)
    ensures forall k :: 0 <= k < |b| ==> b[k] != '/'
    ensures b <= StripDirectory(path)
  {
    var last := StripDirectory(path);
    match FindLastOf(last, '.')
    case None => last
    case Some(i) => last[..i]
  }

  /** A dotted directory over an undotted file name separates the two orders. */
  lemma BaseNamesDiverge()
    ensures BaseNameExtensionFirst("a.b/c") == "a"
    ensures BaseNameDirectoryFirst("a.b/c") == "c"
  {
    LastOfUnique("a.b/c", '.', 1);
    LastOfUnique("a.b/c", '/', 3);
  }

  /** When no `.` comes before the last `/`, both orders give the same base name. */
  lemma BaseNamesAgree(path: string)
    requires FindLastOf(path, '/').Some? ==> forall k :: 0 <= k <= FindLastOf(path, '/').value ==> path[k] != '.'
    ensures BaseNameExtensionFirst(path) == BaseNameDirectoryFirst(path)
  {
    var slash := FindLastOf(path, '/');
    var dot := FindLastOf(path, '.');
    if slash.Some? && dot.Some? {
      AgreeBoth(path, slash.value, dot.value);
    } else if slash.Some? {
      AgreeDirectoryOnly(path, slash.value);
    } else if dot.Some? {
      AgreeExtensionOnly(path, dot.value);
    }
  }

  /** With a directory and no extension, both orders keep everything after the last `/`. */
  lemma AgreeDirectoryOnly(path: string, sl: nat)
    requires FindLastOf(path, '/') == Some(sl) && FindLastOf(path, '.').None?
    ensures BaseNameExtensionFirst(path) == BaseNameDirectoryFirst(path)
  {
    var last := path[sl + 1..];
    assert StripExtension(path) == path;
    assert StripDirectory(path) == last;
    AbsentFromSlice(path, '.', sl + 1, |path|);
    assert path[sl + 1..|path|] == last;
  }

  /** With an extension and no directory, both orders keep everything before the last `.`. */
  lemma AgreeExtensionOnly(path: string, d: nat)
    requires FindLastOf(path, '.') == Some(d) && FindLastOf(path, '/').None?
    ensures BaseNameExtensionFirst(path) == BaseNameDirectoryFirst(path)
  {
    var stem := path[..d];
    assert StripExtension(path) == stem;
    assert StripDirectory(path) == path;
    AbsentFromSlice(path, '/', 0, d);
    assert path[0..d] == stem;
  }

  /** A character absent from a string is absent from every slice of it. */
  lemma AbsentFromSlice(s: string, c: char, lo: nat, hi: nat)
    requires lo <= hi <= |s| && FindLastOf(s, c).None?
    ensures FindLastOf(s[lo..hi], c).None?
  {
    var t := s[lo..hi];
    forall k | 0 <= k < |t|
      ensures t[k] != c
    {
      assert t[k] == s[lo + k];
    }
  }

  /** The case with both a directory and an extension: both orders keep the text between the last `/` and the last `.`. */
  lemma AgreeBoth(path: string, sl: nat, d: nat)
    requires FindLastOf(path, '/') == Some(sl) && FindLastOf(path, '.') == Some(d) && sl < d
    ensures BaseNameExtensionFirst(path) == path[sl + 1..d]
    ensures BaseNameDirectoryFirst(path) == path[sl + 1..d]
  {
    ExtensionFirstBetween(path, sl, d);
    DirectoryFirstBetween(path, sl, d);
  }

  lemma ExtensionFirstBetween(path: string, sl: nat, d: nat)
    requires FindLastOf(path, '/') == Some(sl) && FindLastOf(path, '.') == Some(d) && sl < d
    ensures BaseNameExtensionFirst(path) == path[sl + 1..d]
  {
    var stem := path[..d];
    assert StripExtension(path) == stem;
    forall k | sl < k < |stem|
      ensures stem[k] != '/'
    {
      assert stem[k] == path[k];
    }
    LastOfUnique(stem, '/', sl);
    assert StripDirectory(stem) == stem[sl + 1..];
    SliceOfTake(path, d, sl + 1);
  }

  /** Dropping from a prefix is slicing the whole. */
  lemma SliceOfTake<T>(s: seq<T>, n: nat, a: nat)
    requires a <= n <= |s|
    ensures s[..n][a..] == s[a..n]
  {
  }

  lemma DirectoryFirstBetween(path: string, sl: nat, d: nat)
    requires FindLastOf(path, '/') == Some(sl) && FindLastOf(path, '.') == Some(d) && sl < d
    ensures BaseNameDirectoryFirst(path) == path[sl + 1..d]
  {
    var last := path[sl + 1..];
    var at := d - sl - 1;
    assert StripDirectory(path) == last;
    assert last[at] == path[d];
    forall k | at < k < |last|
      ensures last[k] != '.'
    {
      assert last[k] == path[sl + 1 + k];
    }
    LastOfUnique(last, '.', at);
    SliceOfDrop(path, sl + 1, 0, at, sl + 1, d);
  }
}
