/** The text helpers the index builder relies on: splitting on runs of
    whitespace, trimming a fixed punctuation set from both ends of a token,
    lower-casing, and splitting a query on single spaces. Characters are
    treated as ASCII: only the six ASCII whitespace characters separate
    fields, and only 'A'..'Z' change case. */
module Tokenize {

  /** Space, tab, newline, vertical tab, form feed and carriage return. */
  predicate IsSpace(c: char) {
    c == ' ' || '\t' <= c <= '\r'
  }

  /** The punctuation trimmed from both ends of every document token. */
  const Cutset: set<char> := {
    '.', ',', '-', '~', '?', '!', '"', '\'', '`', ';', ':', '(', ')', '<', '>', '[',
    ']', '{', '}', '\\', '|', '/', '=', '_', '+', '*', '&', '^', '%', '$', '#', '@'
  }

  /** Membership in the cutset, written as the four ASCII punctuation ranges
      (CutsetIsAsciiPunctuation shows the two agree). */
  predicate InCutset(c: char) {
    || '!' <= c <= '/'
    || ':' <= c <= '@'
    || '[' <= c <= '`'
    || '{' <= c <= '~'
  }

  /** The cutset is exactly the 32 ASCII punctuation characters. */
  lemma CutsetIsAsciiPunctuation(c: char)
    ensures c in Cutset <==> InCutset(c)
  {
  }

  predicate IsUpper(c: char) {
    'A' <= c <= 'Z'
  }

  /** A field: a non-empty run of non-whitespace characters. */
  predicate IsWord(w: string) {
    w != [] && forall i :: 0 <= i < |w| ==> !IsSpace(w[i])
  }

  /** A dictionary term: lower-case, and neither end is a cutset character. */
  predicate IsTerm(t: string) {
    && (forall i :: 0 <= i < |t| ==> !IsUpper(t[i]))
    && (t == [] || (!InCutset(t[0]) && !InCutset(t[|t| - 1])))
  }

  // ---------------------------------------------------------------------
  // Fields: split around runs of whitespace, dropping empty pieces
  // ---------------------------------------------------------------------

  /** Length of the longest whitespace-free prefix of s. */
  function WordLen(s: string): (n: nat)
    ensures n <= |s|
    ensures forall i :: 0 <= i < n ==> !IsSpace(s[i])
    ensures n == |s| || IsSpace(s[n])
  {
    if s == [] || IsSpace(s[0]) then 0 else 1 + WordLen(s[1..])
  }

  /** The whitespace-separated fields of s, in order. */
  function Fields(s: string): (fs: seq<string>)
    ensures forall i :: 0 <= i < |fs| ==> IsWord(fs[i])
    decreases |s|
  {
    if s == [] then []
    else if IsSpace(s[0]) then Fields(s[1..])
    else
      var n := WordLen(s);
      [s[..n]] + Fields(s[n..])
  }

  /** The pieces ws joined with one sep between neighbours. */
  function Join(ws: seq<string>, sep: char): string
  {
    if ws == [] then []
    else if |ws| == 1 then ws[0]
    else ws[0] + [sep] + Join(ws[1..], sep)
  }

  function Concat(ws: seq<string>): string
  {
    if ws == [] then [] else ws[0] + Concat(ws[1..])
  }

  /** s with every whitespace character removed. */
  function NonSpace(s: string): string
  {
    if s == [] then []
    else (if IsSpace(s[0]) then [] else [s[0]]) + NonSpace(s[1..])
  }

  lemma {:induction false} WordLenOfWord(w: string, tail: string)
    requires IsWord(w)
    requires tail == [] || IsSpace(tail[0])
    ensures WordLen(w + tail) == |w|
    decreases |w|
  {
    var s := w + tail;
    assert s[0] == w[0];
    if |w| > 1 {
      assert s[1..] == w[1..] + tail;
      WordLenOfWord(w[1..], tail);
    } else {
      assert s[1..] == tail;
    }
  }

  /** Joining words with single spaces and splitting into fields gives the words back. */
  lemma {:induction false} FieldsOfJoin(ws: seq<string>)
    requires forall i :: 0 <= i < |ws| ==> IsWord(ws[i])
    ensures Fields(Join(ws, ' ')) == ws
  {
    if ws == [] {
    } else if |ws| == 1 {
      var w := ws[0];
      WordLenOfWord(w, []);
      assert w + [] == w;
      assert w[|w|..] == [];
    } else {
      var w := ws[0];
      var rest := Join(ws[1..], ' ');
      var s := w + [' '] + rest;
      assert s == w + ([' '] + rest);
      WordLenOfWord(w, [' '] + rest);
      assert s[..|w|] == w;
      assert s[|w|..] == [' '] + rest;
      assert ([' '] + rest)[1..] == rest;
      FieldsOfJoin(ws[1..]);
    }
  }

  lemma {:induction false} NonSpaceOfWordPrefix(s: string, n: nat)
    requires n <= |s|
    requires forall i :: 0 <= i < n ==> !IsSpace(s[i])
    ensures NonSpace(s) == s[..n] + NonSpace(s[n..])
    decreases n
  {
    if n > 0 {
      NonSpaceOfWordPrefix(s[1..], n - 1);
      assert s[1..][..n - 1] == s[1..n];
      assert s[1..][n - 1..] == s[n..];
      assert s[..n] == [s[0]] + s[1..n];
    }
  }

  /** The fields, concatenated, are exactly the non-whitespace characters of s. */
  lemma {:induction false} FieldsCoverNonSpace(s: string)
    ensures Concat(Fields(s)) == NonSpace(s)
    decreases |s|
  {
    if s == [] {
    } else if IsSpace(s[0]) {
      FieldsCoverNonSpace(s[1..]);
    } else {
      var n := WordLen(s);
      NonSpaceOfWordPrefix(s, n);
      FieldsCoverNonSpace(s[n..]);
      var fs := [s[..n]] + Fields(s[n..]);
      assert fs[0] == s[..n] && fs[1..] == Fields(s[n..]);
    }
  }

  /** A run of non-whitespace characters starts at position i of s. */
  predicate StartsRun(s: string, i: nat)
    requires i < |s|
  {
    !IsSpace(s[i]) && (i == 0 || IsSpace(s[i - 1]))
  }

  /** The number of runs that start before position hi of s. */
  function CountStarts(s: string, hi: nat): nat
    requires hi <= |s|
  {
    if hi == 0 then 0 else CountStarts(s, hi - 1) + (if StartsRun(s, hi - 1) then 1 else 0)
  }

  /** s[a..b] is a maximal run of non-whitespace characters: whitespace or
      an end of s on both sides. */
  predicate IsRun(s: string, a: nat, b: nat)
  {
    && a < b <= |s|
    && (a == 0 || IsSpace(s[a - 1]))
    && (b == |s| || IsSpace(s[b]))
    && forall i :: a <= i < b ==> !IsSpace(s[i])
  }

  /** Counting runs across a cut at m that no run straddles: the runs of s
      before m + j are those before m and those of s[m..] before j. */
  lemma {:induction false} CountStartsShift(s: string, m: nat, j: nat)
    requires m + j <= |s|
    requires m == 0 || m == |s| || IsSpace(s[m - 1]) || IsSpace(s[m])
    ensures CountStarts(s, m + j) == CountStarts(s, m) + CountStarts(s[m..], j)
    decreases j
  {
    if j > 0 {
      CountStartsShift(s, m, j - 1);
      assert s[m..][j - 1] == s[m + j - 1];
      if j > 1 {
        assert s[m..][j - 2] == s[m + j - 2];
      }
    }
  }

  /** Within a leading word only its first position starts a run. */
  lemma {:induction false} CountStartsInWord(s: string, j: nat)
    requires 1 <= j <= |s|
    requires forall i :: 0 <= i < j ==> !IsSpace(s[i])
    ensures CountStarts(s, j) == 1
    decreases j
  {
    if j > 1 {
      CountStartsInWord(s, j - 1);
    }
  }

  /** There is one field per run of non-whitespace characters. */
  lemma {:induction false} FieldsCount(s: string)
    ensures |Fields(s)| == CountStarts(s, |s|)
    decreases |s|
  {
    if s != [] {
      var n := if IsSpace(s[0]) then 1 else WordLen(s);
      if !IsSpace(s[0]) {
        CountStartsInWord(s, n);
      }
      CountStartsShift(s, n, |s| - n);
      FieldsCount(s[n..]);
    }
  }

  /** A maximal run of a suffix of s, cut where no run straddles the cut, is
      a maximal run of s, and it starts after the runs before the cut. */
  lemma RunOfSuffix(s: string, m: nat, a: nat, b: nat)
    requires m <= |s| && IsRun(s[m..], a, b)
    requires m == 0 || IsSpace(s[m - 1]) || IsSpace(s[m])
    ensures IsRun(s, m + a, m + b) && s[m..][a..b] == s[m + a..m + b]
    ensures CountStarts(s, m + a) == CountStarts(s, m) + CountStarts(s[m..], a)
  {
    var t := s[m..];
    assert forall i :: 0 <= i < |t| ==> t[i] == s[m + i];
    CountStartsShift(s, m, a);
  }

  /** Field k of a text that starts with whitespace is field k of the rest. */
  lemma FieldAfterSpace(s: string, k: nat)
    requires s != [] && IsSpace(s[0]) && k < |Fields(s)|
    ensures k < |Fields(s[1..])| && Fields(s)[k] == Fields(s[1..])[k]
  {
  }

  /** The first field of a text that starts with a word is that word, and
      field k + 1 is field k of the rest, which starts with whitespace. */
  lemma FieldAfterWord(s: string, k: nat)
    requires s != [] && !IsSpace(s[0]) && k < |Fields(s)|
    ensures var n := WordLen(s);
      && 0 < n && (n == |s| || IsSpace(s[n]))
      && (k == 0 ==> Fields(s)[0] == s[..n])
      && (k > 0 ==> k - 1 < |Fields(s[n..])| && Fields(s)[k] == Fields(s[n..])[k - 1])
  {
  }

  /** Field k of s is the maximal run s[a..b] of non-whitespace characters
      that starts after exactly k other runs. */
  lemma {:induction false} FieldIsRun(s: string, k: nat) returns (a: nat, b: nat)
    requires k < |Fields(s)|
    ensures IsRun(s, a, b) && CountStarts(s, a) == k && Fields(s)[k] == s[a..b]
    decreases |s|, 1
  {
    assert s != [];
    if IsSpace(s[0]) {
      a, b := FieldIsRunAfterSpace(s, k);
    } else {
      a, b := FieldIsRunAfterWord(s, k);
    }
  }

  /** FieldIsRun for a text that starts with whitespace. */
  lemma {:induction false} FieldIsRunAfterSpace(s: string, k: nat) returns (a: nat, b: nat)
    requires s != [] && IsSpace(s[0]) && k < |Fields(s)|
    ensures IsRun(s, a, b) && CountStarts(s, a) == k && Fields(s)[k] == s[a..b]
    decreases |s|, 0
  {
    FieldAfterSpace(s, k);
    var a', b' := FieldIsRun(s[1..], k);
    RunOfSuffix(s, 1, a', b');
    assert CountStarts(s, 1) == 0;
    a, b := 1 + a', 1 + b';
  }

  /** FieldIsRun for a text that starts with a word. */
  lemma {:induction false} FieldIsRunAfterWord(s: string, k: nat) returns (a: nat, b: nat)
    requires s != [] && !IsSpace(s[0]) && k < |Fields(s)|
    ensures IsRun(s, a, b) && CountStarts(s, a) == k && Fields(s)[k] == s[a..b]
    decreases |s|, 0
  {
    var n := WordLen(s);
    FieldAfterWord(s, k);
    if k == 0 {
      assert IsRun(s, 0, n);
      a, b := 0, n;
    } else {
      var a', b' := FieldIsRun(s[n..], k - 1);
      CountStartsInWord(s, n);
      RunOfSuffix(s, n, a', b');
      a, b := n + a', n + b';
    }
  }

  // ---------------------------------------------------------------------
  // Trim: drop cutset characters from both ends
  // ---------------------------------------------------------------------

  function TrimLeft(s: string): (r: string)
    ensures |r| <= |s|
    ensures forall i :: 0 <= i < |s| - |r| ==> InCutset(s[i])
    ensures r == [] || !InCutset(r[0])
  {
    if s != [] && InCutset(s[0]) then TrimLeft(s[1..]) else s
  }

  function TrimRight(s: string): (r: string)
    ensures |r| <= |s| && r == s[..|r|]
    ensures forall i :: |r| <= i < |s| ==> InCutset(s[i])
    ensures r == [] || !InCutset(r[|r| - 1])
  {
    if s != [] && InCutset(s[|s| - 1]) then TrimRight(s[..|s| - 1]) else s
  }

  /** TrimLeft keeps a suffix of s. */
  lemma {:induction false} TrimLeftIsSuffix(s: string)
    ensures TrimLeft(s) == s[|s| - |TrimLeft(s)|..]
    decreases |s|
  {
    if s != [] && InCutset(s[0]) {
      TrimLeftIsSuffix(s[1..]);
      assert s[1..][|s| - 1 - |TrimLeft(s)|..] == s[|s| - |TrimLeft(s)|..];
    }
  }

  /** s without its leading and trailing cutset characters. */
  function Trim(s: string): (r: string)
    ensures r == [] || (!InCutset(r[0]) && !InCutset(r[|r| - 1]))
  {
    TrimRight(TrimLeft(s))
  }

  /** Trim removes only cutset characters, only at the ends, and keeps the
      interior unchanged: it is the slice s[i..j] where i counts the leading
      cutset characters, and everything outside that slice is cutset. */
  lemma TrimIsSlice(s: string)
    ensures var i := |s| - |TrimLeft(s)|; var j := i + |Trim(s)|;
      && j <= |s|
      && Trim(s) == s[i..j]
      && (forall k :: 0 <= k < i ==> InCutset(s[k]))
      && (forall k :: j <= k < |s| ==> InCutset(s[k]))
  {
    var l := TrimLeft(s);
    var t := TrimRight(l);
    var i := |s| - |l|;
    var j := i + |t|;
    TrimLeftIsSuffix(s);
    assert l == s[i..];
    assert t == l[..|t|];
    forall k | j <= k < |s| ensures InCutset(s[k]) {
      assert s[k] == l[k - i];
    }
  }

  lemma TrimIdempotent(s: string)
    ensures Trim(Trim(s)) == Trim(s)
  {
  }

  // ---------------------------------------------------------------------
  // ToLower: ASCII case folding
  // ---------------------------------------------------------------------

  function LowerChar(c: char): (d: char)
  {
    if IsUpper(c) then (c as int + 32) as char else c
  }

  function ToLower(s: string): (r: string)
    ensures |r| == |s|
    ensures forall i :: 0 <= i < |s| ==> r[i] == LowerChar(s[i])
  {
    if s == [] then [] else [LowerChar(s[0])] + ToLower(s[1..])
  }

  /** Lower-casing leaves no upper-case letter and changes nothing else. */
  lemma ToLowerSpec(s: string)
    ensures forall i :: 0 <= i < |s| ==> !IsUpper(ToLower(s)[i])
    ensures forall i :: 0 <= i < |s| && !IsUpper(s[i]) ==> ToLower(s)[i] == s[i]
    ensures ToLower(ToLower(s)) == ToLower(s)
  {
  }

  /** No cutset character is a letter, so lower-casing neither creates nor removes one. */
  lemma LowerKeepsCutset(c: char)
    ensures InCutset(LowerChar(c)) <==> InCutset(c)
  {
    if IsUpper(c) {
      assert !InCutset(c);
      assert !InCutset(LowerChar(c));
    }
  }

  /** The normalisation a document token goes through before it becomes a key. */
  function Normalize(w: string): string
  {
    ToLower(Trim(w))
  }

  /** Every normalised token is a term: lower-case, no cutset character at
      either end; it is the lower-cased interior slice of the token, and
      everything cut off around that slice is cutset. */
  lemma NormalizeIsTerm(w: string)
    ensures IsTerm(Normalize(w))
    ensures var i := |w| - |TrimLeft(w)|; var j := i + |Trim(w)|;
      && j <= |w|
      && Normalize(w) == ToLower(w[i..j])
      && (forall k :: 0 <= k < i ==> InCutset(w[k]))
      && (forall k :: j <= k < |w| ==> InCutset(w[k]))
  {
    var t := Trim(w);
    ToLowerSpec(t);
    if t != [] {
      LowerKeepsCutset(t[0]);
      LowerKeepsCutset(t[|t| - 1]);
    }
    TrimIsSlice(w);
  }

  /** The normalised terms of a document, one per field, in order. */
  function Terms(content: string): seq<string>
  {
    var fs := Fields(content);
    seq(|fs|, i requires 0 <= i < |fs| => Normalize(fs[i]))
  }

  /** Term k of a document is its field k, trimmed and lower-cased. */
  lemma TermAt(content: string, k: nat)
    requires k < |Fields(content)|
    ensures |Terms(content)| == |Fields(content)|
    ensures Terms(content)[k] == ToLower(Trim(Fields(content)[k]))
  {
  }

  /** A document yields one term per field, and every one is a term. */
  lemma TermsAreTerms(content: string)
    ensures |Terms(content)| == |Fields(content)|
    ensures forall i :: 0 <= i < |Terms(content)| ==> IsTerm(Terms(content)[i])
  {
    var fs := Fields(content);
    forall i | 0 <= i < |fs| ensures IsTerm(Terms(content)[i]) {
      NormalizeIsTerm(fs[i]);
    }
  }

  // ---------------------------------------------------------------------
  // Split on a single space, keeping empty pieces
  // ---------------------------------------------------------------------

  /** The pieces of s between single spaces; n spaces give n + 1 pieces. */
  function Split(s: string): (ps: seq<string>)
    ensures |ps| >= 1
    ensures forall i :: 0 <= i < |ps| ==> ' ' !in ps[i]
    decreases |s|
  {
    if s == [] then [[]]
    else
      var rest := Split(s[1..]);
      if s[0] == ' ' then [[]] + rest
      else [[s[0]] + rest[0]] + rest[1..]
  }

  function CountChar(s: string, c: char): nat
  {
    if s == [] then 0 else (if s[0] == c then 1 else 0) + CountChar(s[1..], c)
  }

  lemma {:induction false} SplitCount(s: string)
    ensures |Split(s)| == CountChar(s, ' ') + 1
    decreases |s|
  {
    if s != [] {
      SplitCount(s[1..]);
    }
  }

  /** Joining the pieces with single spaces restores the query. */
  lemma {:induction false} JoinSplit(s: string)
    ensures Join(Split(s), ' ') == s
    decreases |s|
  {
    if s != [] {
      var rest := Split(s[1..]);
      JoinSplit(s[1..]);
      if s[0] == ' ' {
        assert ([[]] + rest)[1..] == rest;
      } else {
        var ps := [[s[0]] + rest[0]] + rest[1..];
        assert ps[1..] == rest[1..];
        if |rest| > 1 {
          assert Join(rest, ' ') == rest[0] + [' '] + Join(rest[1..], ' ');
        }
      }
    }
  }

  lemma {:induction false} SplitWordSpace(w: string, t: string)
    requires ' ' !in w
    ensures Split(w + [' '] + t) == [w] + Split(t)
    ensures Split(w) == [w]
    decreases |w|
  {
    if w != [] {
      SplitWordSpace(w[1..], t);
      assert (w + [' '] + t)[1..] == w[1..] + [' '] + t;
      assert [w[0]] + w[1..] == w;
    } else {
      assert [] + [' '] + t == [' '] + t;
      assert ([' '] + t)[1..] == t;
    }
  }

  /** Splitting a single-space join of space-free pieces gives the pieces back. */
  lemma {:induction false} SplitJoin(ps: seq<string>)
    requires |ps| >= 1
    requires forall i :: 0 <= i < |ps| ==> ' ' !in ps[i]
    ensures Split(Join(ps, ' ')) == ps
  {
    if |ps| == 1 {
      SplitWordSpace(ps[0], []);
    } else {
      var rest := ps[1..];
      SplitWordSpace(ps[0], Join(rest, ' '));
      SplitJoin(rest);
      assert [ps[0]] + rest == ps;
    }
  }

  /** The terms of a single-space join of words are the words, normalised. */
  lemma TermsOfJoin(ws: seq<string>)
    requires forall i :: 0 <= i < |ws| ==> IsWord(ws[i])
    ensures |Terms(Join(ws, ' '))| == |ws|
    ensures forall i :: 0 <= i < |ws| ==> Terms(Join(ws, ' '))[i] == Normalize(ws[i])
  {
    FieldsOfJoin(ws);
  }

  // ---------------------------------------------------------------------
  // Worked examples
  // ---------------------------------------------------------------------

  lemma NormalizeHello()
    ensures Normalize("Hello,") == "hello"
  {
    assert !InCutset('H') && !InCutset('o');
    assert TrimLeft("Hello,") == "Hello,";
    assert TrimRight("Hello,") == TrimRight("Hello") == "Hello";
    assert ToLower("Hello") == "hello";
  }

  lemma NormalizeWorld()
    ensures Normalize("World!!") == "world"
  {
    assert !InCutset('W') && !InCutset('d');
    assert TrimLeft("World!!") == "World!!";
    assert TrimRight("World!!") == TrimRight("World!") == TrimRight("World") == "World";
    assert ToLower("World") == "world";
  }

  /** A text with two fields gives their two normalisations. */
  lemma TermsOfTwoFields(content: string)
    requires |Fields(content)| == 2
    ensures Terms(content) == [Normalize(Fields(content)[0]), Normalize(Fields(content)[1])]
  {
  }

  lemma HelloWorldFields()
    ensures Fields("Hello, World!!") == ["Hello,", "World!!"]
  {
    var ws := ["Hello,", "World!!"];
    assert Join(ws[1..], ' ') == "World!!";
    assert Join(ws, ' ') == "Hello, World!!";
    FieldsOfJoin(ws);
  }

  /** Punctuation at the ends is stripped and case is folded. */
  lemma HelloWorld()
    ensures Terms("Hello, World!!") == ["hello", "world"]
  {
    HelloWorldFields();
    TermsOfTwoFields("Hello, World!!");
    NormalizeHello();
    NormalizeWorld();
  }

  lemma NormalizeDashes()
    ensures Normalize("--") == ""
  {
    assert TrimLeft("--") == TrimLeft("-") == TrimLeft("") == "";
  }

  /** A token made only of punctuation still counts, as the empty term. */
  lemma PunctuationOnlyToken()
    ensures |Terms("to -- be")| == 3 && Terms("to -- be")[1] == ""
  {
    var ws := ["to", "--", "be"];
    assert Join(ws, ' ') == "to -- be";
    TermsOfJoin(ws);
    NormalizeDashes();
  }
}
