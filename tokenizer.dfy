/**
 * The shell's whitespace tokenizer (utils.c, next_non_empty_token).
 *
 * The C code walks a mutable cursor `char** line` through a heap buffer with
 * strsep over the delimiter set DELIMITERS, skipping empty fragments. This
 * module gives
 *   - the pure meaning of one strsep step (Separate) and of one call of
 *     next_non_empty_token (NextNonEmpty) on the abstract cursor, which is
 *     either NULL (None) or the unread rest of the buffer (Some(rest));
 *   - an independent reference definition of "the tokens of a line", the
 *     maximal runs of non-delimiter characters (Tokens), with lemmas that
 *     characterise it and connect it to the cursor;
 *   - the cursor itself as a class over a character array (TokenCursor),
 *     whose methods overwrite delimiters with NUL exactly as strsep does and
 *     are proved against Separate and NextNonEmpty.
 */
module Tokenizer {

  /** NULL (None) or a pointer to a string (Some). */
  datatype Option<+T> = None | Some(value: T)

  /** Membership in DELIMITERS: space, tab, newline, carriage return. */
  predicate IsDelimiter(c: char) {
    c == ' ' || c == '\t' || c == '\n' || c == '\r'
  }

  predicate NoDelimiter(s: string) {
    forall i :: 0 <= i < |s| ==> !IsDelimiter(s[i])
  }

  /** Index of the first delimiter in `s`, or |s| when there is none. */
  function FirstDelimiter(s: string): (k: nat)
    ensures k <= |s| && NoDelimiter(s[..k])
    ensures k < |s| ==> IsDelimiter(s[k])
  {
    if s == [] || IsDelimiter(s[0]) then 0
    else
      var k' := FirstDelimiter(s[1..]);
      assert s[..k' + 1] == [s[0]] + s[1..][..k'];
      k' + 1
  }

  /** The two facts of FirstDelimiter's contract determine it. */
  lemma {:induction false} FirstDelimiterIs(s: string, k: nat)
    requires k <= |s| && NoDelimiter(s[..k])
    requires k < |s| ==> IsDelimiter(s[k])
    ensures FirstDelimiter(s) == k
    decreases k
  {
    if k > 0 {
      assert s[0] == s[..k][0];
      assert s[1..][..k - 1] == s[..k][1..];
      FirstDelimiterIs(s[1..], k - 1);
    }
  }

  /** Size of an abstract cursor: decreases with every strsep step on a non-NULL cursor. */
  function Size(cursor: Option<string>): nat {
    match cursor
    case None => 0
    case Some(s) => |s| + 1
  }

  /**
   * One call of strsep(&cursor, DELIMITERS): (returned fragment, new cursor).
   * A NULL cursor yields NULL and stays NULL; otherwise the fragment up to the
   * first delimiter is returned and the cursor moves past that delimiter, or
   * becomes NULL when the rest holds no delimiter.
   */
  function Separate(cursor: Option<string>): (r: (Option<string>, Option<string>))
    ensures cursor.None? ==> r == (None, None)
    ensures cursor.Some? ==> r.0.Some? && NoDelimiter(r.0.value)
    ensures cursor.Some? && r.1.None? ==> r.0.value == cursor.value
    ensures cursor.Some? && r.1.Some? ==>
      var s, t := cursor.value, r.0.value;
      |t| < |s| && t == s[..|t|] && IsDelimiter(s[|t|]) && r.1.value == s[|t| + 1..]
  {
    match cursor
    case None => (None, None)
    case Some(s) =>
      var k := FirstDelimiter(s);
      if k == |s| then (Some(s), None) else (Some(s[..k]), Some(s[k + 1..]))
  }

  /**
   * One call of next_non_empty_token: strsep until the fragment is NULL or
   * non-empty. The result is (returned token, new cursor).
   */
  function NextNonEmpty(cursor: Option<string>): (r: (Option<string>, Option<string>))
    ensures r.0.Some? ==> |r.0.value| > 0 && NoDelimiter(r.0.value)
    ensures r.0.None? ==> r.1.None?
    ensures cursor.None? ==> r == (None, None)
    ensures cursor.Some? ==> Size(r.1) < Size(cursor)
    decreases Size(cursor)
  {
    var (t, rest) := Separate(cursor);
    if t.Some? && t.value == [] then NextNonEmpty(rest) else (t, rest)
  }

  /** The tokens that repeated calls of next_non_empty_token return, up to the first NULL. */
  function Drain(cursor: Option<string>): seq<string>
    decreases Size(cursor)
  {
    var (t, rest) := NextNonEmpty(cursor);
    if t.None? then [] else [t.value] + Drain(rest)
  }

  /**
   * Where the token lies: a token `t` returned on a cursor holding `s` ends
   * where the new cursor `r` begins (less the one delimiter strsep consumed
   * there), that is at |s| - Size(r); everything in `s` before the token is
   * a delimiter that was skipped as an empty fragment.
   */
  ghost predicate LocatedIn(s: string, t: string, r: Option<string>) {
    && |t| + Size(r) <= |s|
    && s[|s| - Size(r) - |t|..|s| - Size(r)] == t
    && (forall k :: 0 <= k < |s| - Size(r) - |t| ==> IsDelimiter(s[k]))
    && (r.Some? ==> IsDelimiter(s[|s| - Size(r)]) && s[|s| - Size(r) + 1..] == r.value)
  }

  lemma {:induction false} TokenLocation(s: string, t: string, r: Option<string>)
    requires NextNonEmpty(Some(s)) == (Some(t), r)
    ensures LocatedIn(s, t, r)
    decreases |s|
  {
    if s != [] && IsDelimiter(s[0]) {
      SkipDelimiter(s);
      TokenLocation(s[1..], t, r);
      LocationShift(s, t, r);
    } else if s == [] {
      assert false;
    } else {
      FragmentLocation(s, t, r);
    }
  }

  /** A leading delimiter is one empty fragment that next_non_empty_token skips. */
  lemma SkipDelimiter(s: string)
    requires s != [] && IsDelimiter(s[0])
    ensures NextNonEmpty(Some(s)) == NextNonEmpty(Some(s[1..]))
  {
    assert Separate(Some(s)) == (Some([]), Some(s[1..]));
  }

  /** A location in `s[1..]`, past a leading delimiter, is a location in `s`. */
  lemma LocationShift(s: string, t: string, r: Option<string>)
    requires s != [] && IsDelimiter(s[0]) && LocatedIn(s[1..], t, r)
    ensures LocatedIn(s, t, r)
  {
    var e := |s| - Size(r);
    assert |s[1..]| - Size(r) == e - 1;
    assert s[1..][e - 1 - |t|..e - 1] == t;
    forall k | 0 <= k < |t|
      ensures s[e - |t|..e][k] == t[k]
    {
      assert s[e - |t|..e][k] == s[1..][e - 1 - |t|..e - 1][k];
    }
    forall k | 0 <= k < e - |t|
      ensures IsDelimiter(s[k])
    {
      if k > 0 {
        assert s[k] == s[1..][k - 1];
      }
    }
    if r.Some? {
      assert s[1..][e..] == s[e + 1..];
    }
  }

  /** Without a leading delimiter, the token is the first strsep fragment, at offset 0. */
  lemma FragmentLocation(s: string, t: string, r: Option<string>)
    requires s != [] && !IsDelimiter(s[0]) && NextNonEmpty(Some(s)) == (Some(t), r)
    ensures LocatedIn(s, t, r) && |s| - Size(r) == |t|
  {
    var k := FirstDelimiter(s);
    assert k != 0;
    if k == |s| {
      assert s[..k] == s;
    }
    assert NextNonEmpty(Some(s)) == Separate(Some(s));
    assert s[0..|t|] == s[..|t|];
  }

  /** Every byte of `text` in [from, to) is a delimiter. */
  ghost predicate DelimitersBetween(text: string, from: int, to: int) {
    forall k :: from <= k < to && 0 <= k < |text| ==> IsDelimiter(text[k])
  }

  /** `t` lies in `s` at offset `start`. */
  ghost predicate Holds(s: seq<char>, start: nat, t: string) {
    start + |t| <= |s| && forall k :: 0 <= k < |t| ==> s[start + k] == t[k]
  }

  /** `t` lies in `text` at `start`, and only delimiters lie between `p0` and `start`. */
  ghost predicate FoundAt(text: string, p0: nat, start: nat, t: string) {
    p0 <= start && Holds(text, start, t) && DelimitersBetween(text, p0, start)
  }

  /** The cursor `pos` lies one delimiter past the end of `t`, which starts at `start` in `text`. */
  ghost predicate CursorPast(text: string, start: nat, t: string, pos: nat) {
    pos == start + |t| + 1 <= |text| && DelimitersBetween(text, start + |t|, pos)
  }

  /**
   * LocatedIn for a cursor at offset `p0` of the whole buffer `text`: the
   * token starts at `start`, after nothing but delimiters, and a non-NULL
   * new cursor at offset `pos` lies one delimiter past its end.
   */
  lemma TokenAt(text: string, p0: nat, t: string, r: Option<string>, pos: nat, start: int)
    requires p0 <= |text| && LocatedIn(text[p0..], t, r)
    requires r.Some? ==> pos <= |text| && r.value == text[pos..]
    requires start == |text| - Size(r) - |t|
    ensures start >= 0 && FoundAt(text, p0, start, t)
    ensures r.Some? ==> CursorPast(text, start, t, pos)
  {
    var s := text[p0..];
    var e := |s| - Size(r);
    assert start == p0 + e - |t|;
    assert text[start..start + |t|] == s[e - |t|..e];
    forall k | p0 <= k < start && 0 <= k < |text|
      ensures IsDelimiter(text[k])
    {
      assert text[k] == s[k - p0];
    }
    if r.Some? {
      assert text[start + |t| + 1..] == s[e + 1..];
      assert |text[pos..]| == |text[start + |t| + 1..]|;
      forall k | start + |t| <= k < pos && 0 <= k < |text|
        ensures IsDelimiter(text[k])
      {
        assert text[k] == s[e];
      }
    }
  }

  /**
   * The cursor after a call: a token `t` returned on a cursor at offset `p0`
   * of `text` starts at `start`, after nothing but delimiters; a non-NULL
   * new cursor at offset `pos` begins one delimiter past its end.
   */
  lemma CursorAfterToken(text: string, p0: nat, t: string, r: Option<string>, pos: nat, start: int)
    requires p0 <= |text| && NextNonEmpty(Some(text[p0..])) == (Some(t), r)
    requires r.Some? ==> pos <= |text| && r.value == text[pos..]
    requires start == |text| - Size(r) - |t|
    ensures start >= 0 && FoundAt(text, p0, start, t)
    ensures r.Some? ==> CursorPast(text, start, t, pos)
  {
    TokenLocation(text[p0..], t, r);
    TokenAt(text, p0, t, r, pos, start);
  }

  /**
   * Reference definition: the maximal runs of non-delimiter characters of
   * `s`, left to right.
   */
  function Tokens(s: string): seq<string>
    decreases |s|
  {
    if s == [] then []
    else if IsDelimiter(s[0]) then Tokens(s[1..])
    else
      var k := FirstDelimiter(s);
      if k == |s| then [s] else [s[..k]] + Tokens(s[k + 1..])
  }

  /** Every token is non-empty and holds no delimiter. */
  lemma {:induction false} TokensAreWords(s: string)
    ensures forall i :: 0 <= i < |Tokens(s)| ==> |Tokens(s)[i]| > 0 && NoDelimiter(Tokens(s)[i])
    decreases |s|
  {
    if s == [] {
    } else if IsDelimiter(s[0]) {
      TokensAreWords(s[1..]);
    } else {
      var k := FirstDelimiter(s);
      if k < |s| {
        TokensAreWords(s[k + 1..]);
      }
    }
  }

  /** A non-empty word without delimiters is a single token. */
  lemma TokensOfWord(w: string)
    requires |w| > 0 && NoDelimiter(w)
    ensures Tokens(w) == [w]
  {
    assert w[..|w|] == w;
    FirstDelimiterIs(w, |w|);
  }

  /**
   * A delimiter splits the line into two independent halves. Together with
   * Tokens([]) == [] and TokensOfWord this determines Tokens completely.
   */
  lemma {:induction false} TokensSplit(a: string, d: char, b: string)
    requires IsDelimiter(d)
    ensures Tokens(a + [d] + b) == Tokens(a) + Tokens(b)
    decreases |a|
  {
    var s := a + [d] + b;
    if a == [] {
      assert s[1..] == b;
    } else if IsDelimiter(a[0]) {
      assert s[1..] == a[1..] + [d] + b;
      TokensSplit(a[1..], d, b);
    } else {
      var j := FirstDelimiter(a);
      if j < |a| {
        assert s[..j] == a[..j];
        FirstDelimiterIs(s, j);
        assert s[j + 1..] == a[j + 1..] + [d] + b;
        TokensSplit(a[j + 1..], d, b);
      } else {
        assert a[..j] == a;
        assert s[..j] == a;
        FirstDelimiterIs(s, j);
        assert s[j + 1..] == b;
      }
    }
  }

  /** Consecutive delimiters collapse: a run of delimiters separates like a single one. */
  lemma DelimitersCollapse(a: string, d: char, e: char, b: string)
    requires IsDelimiter(d) && IsDelimiter(e)
    ensures Tokens(a + [d, e] + b) == Tokens(a + [d] + b)
  {
    assert a + [d, e] + b == a + [d] + ([e] + b);
    TokensSplit(a, d, [e] + b);
    TokensSplit(a, d, b);
    assert ([e] + b)[1..] == b;
  }

  /**
   * The cursor returns exactly the reference tokens: starting on a buffer
   * holding `s`, next_non_empty_token yields the maximal non-delimiter runs
   * of `s` in order, then NULL.
   */
  lemma {:induction false} DrainIsTokens(s: string)
    ensures Drain(Some(s)) == Tokens(s)
    decreases |s|
  {
    if s == [] {
      assert Separate(Some(s)) == (Some([]), None);
      assert NextNonEmpty(Some(s)) == (None, None);
    } else if IsDelimiter(s[0]) {
      SkipDelimiter(s);
      DrainIsTokens(s[1..]);
      assert Drain(Some(s)) == Drain(Some(s[1..]));
    } else {
      var k := FirstDelimiter(s);
      assert k != 0;
      if k == |s| {
        assert s[..k] == s;
        assert NextNonEmpty(Some(s)) == (Some(s), None);
      } else {
        assert NextNonEmpty(Some(s)) == (Some(s[..k]), Some(s[k + 1..]));
        DrainIsTokens(s[k + 1..]);
      }
    }
  }

  /** The cursor after `n` calls of next_non_empty_token starting from `cursor`. */
  function AfterCalls(cursor: Option<string>, n: nat): Option<string>
    decreases n
  {
    if n == 0 then cursor else AfterCalls(NextNonEmpty(cursor).1, n - 1)
  }

  /** Once a call has returned NULL, every later call returns NULL again. */
  lemma {:induction false} NullIsFinal(cursor: Option<string>, n: nat)
    requires NextNonEmpty(cursor).0.None?
    ensures NextNonEmpty(AfterCalls(cursor, n)).0.None?
    decreases n
  {
    if n > 0 {
      NullIsFinal(None, n - 1);
    }
  }

  /** A line of n characters has at most (n + 1) / 2 tokens. */
  lemma {:induction false} TokenCountBound(s: string)
    ensures 2 * |Tokens(s)| <= |s| + 1
    decreases |s|
  {
    if s == [] {
    } else if IsDelimiter(s[0]) {
      TokenCountBound(s[1..]);
    } else {
      var k := FirstDelimiter(s);
      if k < |s| {
        TokenCountBound(s[k + 1..]);
      }
    }
  }

  /** The characters of `s` that are not delimiters, in order. */
  function NonDelimiters(s: string): (r: string)
    ensures NoDelimiter(r) && |r| <= |s|
  {
    if s == [] then []
    else (if IsDelimiter(s[0]) then [] else [s[0]]) + NonDelimiters(s[1..])
  }

  /** Concatenation of a sequence of strings. */
  function Concat(ts: seq<string>): string {
    if ts == [] then [] else ts[0] + Concat(ts[1..])
  }

  /** NonDelimiters distributes over concatenation. */
  lemma {:induction false} NonDelimitersAppend(a: string, b: string)
    ensures NonDelimiters(a + b) == NonDelimiters(a) + NonDelimiters(b)
    decreases |a|
  {
    if a != [] {
      assert (a + b)[1..] == a[1..] + b;
      NonDelimitersAppend(a[1..], b);
    } else {
      assert a + b == b;
    }
  }

  /** A word without delimiters keeps all its characters. */
  lemma {:induction false} NonDelimitersOfWord(w: string)
    requires NoDelimiter(w)
    ensures NonDelimiters(w) == w
    decreases |w|
  {
    if w != [] {
      NonDelimitersOfWord(w[1..]);
    }
  }

  /**
   * Nothing but delimiters is lost: the tokens, concatenated, are the
   * non-delimiter characters of the line in their original order.
   */
  lemma {:induction false} TokensKeepContents(s: string)
    ensures Concat(Tokens(s)) == NonDelimiters(s)
    decreases |s|
  {
    if s == [] {
    } else if IsDelimiter(s[0]) {
      TokensKeepContents(s[1..]);
    } else {
      var k := FirstDelimiter(s);
      if k == |s| {
        assert s[..k] == s;
        NonDelimitersOfWord(s);
        assert Concat([s]) == s + Concat([]);
      } else {
        TokensKeepContents(s[k + 1..]);
        assert s == s[..k] + ([s[k]] + s[k + 1..]);
        NonDelimitersAppend(s[..k], [s[k]] + s[k + 1..]);
        NonDelimitersOfWord(s[..k]);
        assert ([s[k]] + s[k + 1..])[1..] == s[k + 1..];
        assert NonDelimiters([s[k]] + s[k + 1..]) == NonDelimiters(s[k + 1..]);
        var ts := [s[..k]] + Tokens(s[k + 1..]);
        assert ts[1..] == Tokens(s[k + 1..]);
      }
    }
  }

  /**
   * `after` is `before` with some delimiters overwritten by NUL and every
   * other byte unchanged: the only writes strsep makes.
   */
  ghost predicate NulOverDelimiters(before: seq<char>, after: seq<char>) {
    |before| == |after| &&
    forall k :: 0 <= k < |before| ==> after[k] == before[k] || (IsDelimiter(before[k]) && after[k] == '\0')
  }

  /** The write of strsep: NUL over the delimiter at `i`, in a buffer that holds `text` from `p` on. */
  lemma NulAtDelimiter(b: seq<char>, text: string, p: nat, i: nat)
    requires |b| == |text| && p <= i < |b| && b[p..] == text[p..] && IsDelimiter(text[i])
    ensures NulOverDelimiters(b, b[i := '\0'])
    ensures b[i := '\0'][i + 1..] == text[i + 1..]
  {
    assert b[i] == b[p..][i - p];
    assert b[i := '\0'][i + 1..] == b[p..][i + 1 - p..];
  }

  /**
   * A returned token survives later strsep calls: they only overwrite
   * delimiters, and the token holds none, so the bytes it points at stay put.
   */
  lemma TokenStays(before: seq<char>, after: seq<char>, start: nat, t: string)
    requires NulOverDelimiters(before, after) && NoDelimiter(t) && Holds(before, start, t)
    ensures Holds(after, start, t)
  {
  }

  /** A token found in `text` at `start` is in a buffer that held `text` from `p0` on, and stays there. */
  lemma TokenInBuffer(before: seq<char>, after: seq<char>, text: string, p0: nat, start: nat, t: string)
    requires |before| == |text| && p0 <= |text| && before[p0..] == text[p0..]
    requires FoundAt(text, p0, start, t) && NoDelimiter(t) && NulOverDelimiters(before, after)
    ensures Holds(after, start, t)
  {
    forall k | 0 <= k < |t|
      ensures before[start + k] == t[k]
    {
      assert before[start + k] == before[p0..][start + k - p0];
    }
    TokenStays(before, after, start, t);
  }

  /** Each token `ts[j]` is free of delimiters and lies in `b` at offset `starts[j]`. */
  ghost predicate AllHeld(b: seq<char>, starts: seq<nat>, ts: seq<string>) {
    |starts| == |ts| && forall j :: 0 <= j < |ts| ==> NoDelimiter(ts[j]) && Holds(b, starts[j], ts[j])
  }

  /** All tokens returned so far survive a further round of strsep writes. */
  lemma AllHeldStay(before: seq<char>, after: seq<char>, starts: seq<nat>, ts: seq<string>)
    requires AllHeld(before, starts, ts) && NulOverDelimiters(before, after)
    ensures AllHeld(after, starts, ts)
  {
    forall j | 0 <= j < |ts|
      ensures Holds(after, starts[j], ts[j])
    {
      TokenStays(before, after, starts[j], ts[j]);
    }
  }

  /** A newly returned token joins the held ones. */
  lemma AllHeldAppend(b: seq<char>, starts: seq<nat>, ts: seq<string>, start: nat, t: string)
    requires AllHeld(b, starts, ts) && NoDelimiter(t) && Holds(b, start, t)
    ensures AllHeld(b, starts + [start], ts + [t])
  {
    assert forall j :: 0 <= j < |ts| ==> (ts + [t])[j] == ts[j] && (starts + [start])[j] == starts[j];
  }

  /** Two rounds of NUL writes over delimiters are again such a round (NUL is no delimiter). */
  lemma NulOverDelimitersTrans(a: seq<char>, b: seq<char>, c: seq<char>)
    requires NulOverDelimiters(a, b) && NulOverDelimiters(b, c)
    ensures NulOverDelimiters(a, c)
  {
  }

  /**
   * The cursor `char** line` of next_non_empty_token together with the
   * buffer it points into (the strndup copy made by parse_command).
   * `exhausted` stands for *line == NULL; otherwise *line points at
   * buffer[pos]. strsep overwrites each delimiter it consumes with NUL.
   */
  class TokenCursor {
    var buffer: array<char>
    var pos: nat
    var exhausted: bool
    /** The text the buffer was filled with; strsep only overwrites bytes before `pos`. */
    ghost const text: string

    ghost predicate Valid()
      reads this, buffer
    {
      buffer.Length == |text| && pos <= |text| && buffer[pos..] == text[pos..]
    }

    /** The abstract cursor: NULL, or the unread rest of the buffer. */
    ghost function Rest(): Option<string>
      reads this
      requires pos <= |text|
    {
      if exhausted then None else Some(text[pos..])
    }

    /** A cursor at the start of a fresh buffer holding `text`. */
    constructor (text: string)
      ensures Valid() && fresh(buffer)
      ensures this.text == text && buffer[..] == text && pos == 0
      ensures Rest() == Some(text)
    {
      this.text := text;
      buffer := new char[|text|](i requires 0 <= i < |text| => text[i]);
      pos := 0;
      exhausted := false;
      new;
      assert buffer[0..] == text;
    }

    /** The scan inside strsep: the index of the first delimiter at or after `pos`, or the end. */
    method FindDelimiter() returns (i: nat)
      requires Valid()
      ensures pos <= i <= buffer.Length
      ensures i - pos == FirstDelimiter(text[pos..])
    {
      ghost var s := text[pos..];
      i := pos;
      while i < buffer.Length && !IsDelimiter(buffer[i])
        invariant pos <= i <= buffer.Length
        invariant buffer[pos..] == s
        invariant NoDelimiter(s[..i - pos])
      {
        assert s[..i - pos + 1] == s[..i - pos] + [s[i - pos]];
        i := i + 1;
      }
      FirstDelimiterIs(s, i - pos);
    }

    /** The write inside strsep: NUL over the delimiter at `i`, and the cursor moves past it. */
    method CutAt(i: nat)
      requires Valid() && !exhausted && pos <= i < buffer.Length && IsDelimiter(text[i])
      modifies this, buffer
      ensures Valid() && buffer == old(buffer) && !exhausted && pos == i + 1
      ensures buffer[..] == old(buffer[..])[i := '\0']
      ensures forall k :: 0 <= k < old(pos) ==> buffer[k] == old(buffer[k])
      ensures NulOverDelimiters(old(buffer[..]), buffer[..])
    {
      NulAtDelimiter(buffer[..], text, pos, i);
      buffer[i] := '\0';
      pos := i + 1;
    }

    /** strsep(line, DELIMITERS). */
    method Strsep() returns (token: Option<string>)
      requires Valid()
      modifies this, buffer
      ensures Valid() && buffer == old(buffer)
      ensures (token, Rest()) == Separate(old(Rest()))
      ensures old(exhausted) || exhausted ==> buffer[..] == old(buffer[..])
      ensures !exhausted ==>
        && !old(exhausted) && token.Some?
        && pos == old(pos) + |token.value| + 1
        && buffer[..] == old(buffer[..])[pos - 1 := '\0']
      ensures forall k :: 0 <= k < old(pos) ==> buffer[k] == old(buffer[k])
      ensures token.Some? ==> old(pos) + |token.value| <= |text| && text[old(pos)..old(pos) + |token.value|] == token.value
      ensures NulOverDelimiters(old(buffer[..]), buffer[..])
    {
      if exhausted {
        return None;
      }
      var i := FindDelimiter();
      ghost var s := text[pos..];
      token := Some(buffer[pos..i]);
      assert buffer[pos..i] == s[..i - pos] == text[pos..i];
      if i == buffer.Length {
        assert s[..i - pos] == s;
        assert Separate(Some(s)) == (Some(s), None);
        exhausted := true;
      } else {
        assert s[i - pos + 1..] == text[i + 1..];
        assert Separate(Some(s)) == (token, Some(text[i + 1..]));
        CutAt(i);
      }
    }

    /**
     * next_non_empty_token(line). The ghost `start` is the offset in the
     * buffer at which the returned token begins.
     */
    method NextNonEmptyToken() returns (token: Option<string>, ghost start: nat)
      requires Valid()
      modifies this, buffer
      ensures Valid() && buffer == old(buffer)
      ensures (token, Rest()) == NextNonEmpty(old(Rest()))
      ensures forall k :: 0 <= k < old(pos) ==> buffer[k] == old(buffer[k])
      ensures NulOverDelimiters(old(buffer[..]), buffer[..])
      ensures token.Some? ==> FoundAt(text, old(pos), start, token.value)
      ensures token.Some? ==> Holds(buffer[..], start, token.value)
      ensures token.Some? && !exhausted ==> CursorPast(text, start, token.value, pos)
      ensures !exhausted ==> token.Some?
    {
      ghost var p0 := pos;
      start := pos;
      token := Strsep();
      while token.Some? && token.value == []
        invariant Valid() && buffer == old(buffer)
        invariant forall k :: 0 <= k < old(pos) ==> buffer[k] == old(buffer[k])
        invariant NulOverDelimiters(old(buffer[..]), buffer[..])
        invariant !exhausted ==> token.Some?
        invariant NextNonEmpty(old(Rest())) ==
          if token.Some? && token.value == [] then NextNonEmpty(Rest()) else (token, Rest())
        decreases Size(Rest()) + (if token.Some? then 1 else 0)
      {
        ghost var before := buffer[..];
        token := Strsep();
        NulOverDelimitersTrans(old(buffer[..]), before, buffer[..]);
      }
      if token.Some? {
        ghost var t, r := token.value, Rest();
        ghost var at := |text| - Size(r) - |t|;
        assert && at >= 0 && FoundAt(text, p0, at, t) && (r.Some? ==> CursorPast(text, at, t, pos))
               && Holds(buffer[..], at, t) by {
          assert old(Rest()) == Some(text[p0..]);
          CursorAfterToken(text, p0, t, r, pos, at);
          TokenInBuffer(old(buffer[..]), buffer[..], text, p0, at, t);
        }
        start := at;
      }
    }
  }
}
