/** The configuration file: printing symbols (`conf_write_symbol`, `kconfig_print_symbol`,
    `sym_escape_string_value`) and reading them back (`conf_read_simple`, `conf_set_sym_val`). */
module Config {
  import opened Expr

  predicate Special(c: char) { c == '"' || c == '\\' }

  // ----- quoting -----

  function EscapeBody(s: string): string {
    if s == [] then []
    else (if Special(s[0]) then ['\\', s[0]] else [s[0]]) + EscapeBody(s[1..])
  }

  function Quoted(s: string): string { ['"'] + EscapeBody(s) + ['"'] }

  /** What reading makes of the text after the opening quote: characters up to the first
      unescaped quote. None if there is no such quote. */
  function Unquote(s: string): Option<string> {
    if s == [] then None
    else if s[0] == '"' then Some([])
    else if s[0] == '\\' then
      if |s| == 1 then None
      else var r := Unquote(s[2..]);
           if r.None? then None else Some([s[1]] + r.value)
    else var r := Unquote(s[1..]);
         if r.None? then None else Some([s[0]] + r.value)
  }

  /** Reading undoes quoting, whatever follows the closing quote. */
  lemma {:induction false} UnquoteQuoted(s: string, junk: string)
    ensures Unquote(EscapeBody(s) + ['"'] + junk) == Some(s)
  {
    var t := EscapeBody(s) + ['"'] + junk;
    if s != [] {
      var rest := EscapeBody(s[1..]) + ['"'] + junk;
      UnquoteQuoted(s[1..], junk);
      if Special(s[0]) {
        assert t == ['\\', s[0]] + rest && t[2..] == rest;
      } else {
        assert t == [s[0]] + rest && t[1..] == rest;
      }
      assert s == [s[0]] + s[1..];
    }
  }

  /** Escaping goes character by character: a quote or a backslash gets a backslash in front. */
  lemma {:induction false} EscapeConcat(a: string, b: string, c: char)
    ensures EscapeBody(a + b) == EscapeBody(a) + EscapeBody(b)
    ensures EscapeBody([c]) == if c == '"' || c == '\\' then ['\\', c] else [c]
  {
    if a == [] {
      assert a + b == b;
    } else {
      assert (a + b)[1..] == a[1..] + b;
      EscapeConcat(a[1..], b, c);
    }
    assert [c][1..] == [];
  }

  /** `strcspn(s, "\"\\")` */
  function PlainLength(s: string): (n: nat)
    ensures n <= |s|
    ensures forall i :: 0 <= i < n ==> !Special(s[i])
    ensures n < |s| ==> Special(s[n])
  {
    if s == [] || Special(s[0]) then 0 else 1 + PlainLength(s[1..])
  }

  lemma {:induction false} EscapePlain(s: string, n: nat)
    requires n <= |s| && forall i :: 0 <= i < n ==> !Special(s[i])
    ensures EscapeBody(s) == s[..n] + EscapeBody(s[n..])
  {
    if n > 0 {
      EscapePlain(s[1..], n - 1);
      assert s[1..][n - 1..] == s[n..];
      assert s[..n] == [s[0]] + s[1..][..n - 1];
    } else {
      assert s[0..] == s;
    }
  }

  /** The first loop of `sym_escape_string_value`: the size of the quoted text with its
      terminator. */
  method QuotedSize(input: string) returns (reslen: nat)
    ensures reslen == |Quoted(input)| + 1
  {
    reslen := |input| + 2 + 1;
    var p := input;
    while true
      invariant reslen + |EscapeBody(p)| == |EscapeBody(input)| + |p| + 3
      decreases |p|
    {
      var l := PlainLength(p);
      EscapePlain(p, l);
      p := p[l..];
      if p == [] {
        break;
      }
      reslen := reslen + 1;
      p := p[1..];
    }
  }

  /** `strncat`: appends to the n characters that are in the buffer. */
  method Append(res: array<char>, n: nat, text: string)
    requires n + |text| <= res.Length
    modifies res
    ensures res[..n + |text|] == old(res[..n]) + text
    ensures forall i :: n + |text| <= i < res.Length ==> res[i] == old(res[i])
  {
    forall i | 0 <= i < |text| {
      res[n + i] := text[i];
    }
  }

  /** Copies the plain part of p and, unless p ends there, the next character with its
      backslash. */
  method EscapeChunk(res: array<char>, n: nat, p: string) returns (n': nat, p': string, end: bool)
    requires n + |EscapeBody(p)| <= res.Length
    modifies res
    ensures n <= n' && n' + |EscapeBody(p')| == n + |EscapeBody(p)|
    ensures res[..n'] + EscapeBody(p') == old(res[..n]) + EscapeBody(p)
    ensures forall i :: n' <= i < res.Length ==> res[i] == old(res[i])
    ensures if end then p' == [] else |p'| < |p|
  {
    var l := PlainLength(p);
    EscapePlain(p, l);
    Append(res, n, p[..l]);
    Associate(old(res[..n]), p[..l], EscapeBody(p[l..]));
    p', n' := p[l..], n + l;
    end := p' == [];
    if !end {
      Associate(res[..n'], ['\\', p'[0]], EscapeBody(p'[1..]));
      Append(res, n', ['\\', p'[0]]);
      p', n' := p'[1..], n' + 2;
    }
  }

  lemma Associate(a: string, b: string, c: string)
    ensures a + (b + c) == a + b + c
  {}

  /** `sym_escape_string_value`. The buffer has exactly the room for the quoted text and its
      terminator. */
  method EscapeStringValue(input: string) returns (res: array<char>)
    ensures fresh(res) && res[..] == Quoted(input) + ['\0']
  {
    var reslen := QuotedSize(input);
    res := new char[reslen](_ => '\0');
    res[0] := '"';
    var n, p, end := 1, input, false;
    assert res[..1] == ['"'];
    while !end
      invariant 0 < n && n + |EscapeBody(p)| + 2 == res.Length
      invariant res[..n] + EscapeBody(p) == ['"'] + EscapeBody(input)
      invariant forall i :: n <= i < res.Length ==> res[i] == '\0'
      invariant end ==> p == []
      decreases !end, |p|
    {
      n, p, end := EscapeChunk(res, n, p);
    }
    res[n] := '"';
    assert res[..] == res[..n] + ['"', '\0'];
  }

  // ----- unquoting in place -----

  /** The text in the buffer from p up to its terminator. */
  ghost predicate Terminated(buf: array<char>, p: nat, n: nat)
    reads buf
  {
    p <= n < buf.Length && buf[n] == '\0' && forall i :: p <= i < n ==> buf[i] != '\0'
  }

  /** `strpbrk(s, "\"\\")` from index p on. */
  method FindSpecial(buf: array<char>, p: nat, ghost n: nat) returns (r: Option<nat>)
    requires Terminated(buf, p, n)
    ensures r.Some? ==> p <= r.value < n && Special(buf[r.value]) && forall i :: p <= i < r.value ==> !Special(buf[i])
    ensures r.None? ==> forall i :: p <= i < n ==> !Special(buf[i])
  {
    var i := p;
    while buf[i] != '\0'
      invariant p <= i <= n
      invariant forall j :: p <= j < i ==> !Special(buf[j])
      decreases n - i
    {
      if Special(buf[i]) {
        return Some(i);
      }
      i := i + 1;
    }
    r := None;
  }

  /** `memmove(p, p + 1, strlen(p))` */
  method DropChar(buf: array<char>, p: nat, ghost n: nat)
    requires Terminated(buf, p, n) && p < n
    modifies buf
    ensures buf[..p] == old(buf[..p]) && buf[p..n] == old(buf[p + 1..n + 1])
    ensures buf[n..] == old(buf[n..])
  {
    var i := p;
    while buf[i] != '\0'
      invariant p <= i <= n
      invariant forall j :: 0 <= j < p ==> buf[j] == old(buf[j])
      invariant forall j :: p <= j < i ==> buf[j] == old(buf[j + 1])
      invariant forall j :: i <= j < buf.Length ==> buf[j] == old(buf[j])
      decreases n - i
    {
      buf[i] := buf[i + 1];
      i := i + 1;
    }
  }

  function Prepend(w: string, r: Option<string>): Option<string> {
    if r.None? then None else Some(w + r.value)
  }

  lemma {:induction false} UnquotePlain(t: string, k: nat)
    requires k <= |t| && forall i :: 0 <= i < k ==> !Special(t[i])
    ensures Unquote(t) == Prepend(t[..k], Unquote(t[k..]))
  {
    if k > 0 {
      UnquotePlain(t[1..], k - 1);
      PrependTwice([t[0]], t[1..][..k - 1], Unquote(t[k..]));
      assert t[1..][k - 1..] == t[k..];
      assert t[..k] == [t[0]] + t[1..][..k - 1];
    } else {
      assert t[0..] == t;
      PrependNothing(Unquote(t));
    }
  }

  lemma PrependNothing(r: Option<string>)
    ensures Prepend([], r) == r
  {
    if r.Some? { assert [] + r.value == r.value; }
  }

  lemma PrependTwice(w: string, x: string, r: Option<string>)
    ensures Prepend(w, Prepend(x, r)) == Prepend(w + x, r)
  {
    if r.Some? { assert w + (x + r.value) == (w + x) + r.value; }
  }

  /** Drops the backslash at i. The text then ends one earlier and goes on behind the character
      that moved to i; after a backslash at the very end there are only terminators. */
  method Squeeze(buf: array<char>, i: nat, ghost m: nat) returns (ghost m': nat)
    requires Terminated(buf, i, m) && i < m && buf[i] == '\\'
    modifies buf
    ensures buf[..i] == old(buf[..i])
    ensures m' <= m && Terminated(buf, i + 1, m')
    ensures Unquote(old(buf[i..m])) == Prepend([buf[i]], Unquote(buf[i + 1..m']))
  {
    ghost var tail := buf[i..m];
    DropChar(buf, i, m);
    assert buf[m] == buf[m..][0] == '\0';
    m' := m;
    if i + 1 < m {
      m' := m - 1;
      assert forall k :: i <= k < m - 1 ==> buf[k] == buf[i..m][k - i] == tail[k - i + 1];
      assert buf[m - 1] == buf[i..m][m - 1 - i] == '\0';
      assert tail[2..] == buf[i + 1..m'] && tail[1] == buf[i];
    }
  }

  /** One round of the loop below: on to the next special character. */
  method UnquoteStep(buf: array<char>, p: nat, ghost m: nat) returns (end: Option<bool>, i: nat, ghost m': nat)
    requires Terminated(buf, p, m)
    modifies buf
    ensures buf[..p] == old(buf[..p])
    ensures match end
            case Some(false) => Unquote(old(buf[p..m])) == None
            case Some(true) => p <= i <= m && buf[i] == '\0' && Unquote(old(buf[p..m])) == Some(buf[p..i])
            case None => p < i <= m' <= m && Terminated(buf, i, m')
                         && Unquote(old(buf[p..m])) == Prepend(buf[p..i], Unquote(buf[i..m']))
  {
    ghost var t := buf[p..m];
    var q := FindSpecial(buf, p, m);
    if q.None? {
      UnquotePlain(t, |t|);
      return Some(false), 0, 0;
    }
    i, m' := q.value, m;
    UnquotePlain(t, i - p);
    assert t[..i - p] == buf[p..i] && t[i - p..] == buf[i..m];
    if buf[i] == '"' {
      end := Some(true);
      AtQuote(buf, p, i, m);
    } else {
      end := None;
      m' := AtBackslash(buf, p, i, m);
      i := i + 1;
    }
  }

  /** The closing quote at i becomes the terminator. */
  method AtQuote(buf: array<char>, p: nat, i: nat, ghost m: nat)
    requires Terminated(buf, p, m) && p <= i < m && buf[i] == '"'
    modifies buf
    ensures buf[..i] == old(buf[..i]) && buf[..p] == old(buf[..p]) && buf[i] == '\0'
    ensures Prepend(old(buf[p..i]), Unquote(old(buf[i..m]))) == Some(buf[p..i])
  {
    ghost var w := buf[p..i];
    assert Unquote(buf[i..m]) == Some([]) && w + [] == w;
    buf[i] := '\0';
    assert buf[p..i] == w;
  }

  /** The backslash at i is squeezed out, and the character behind it is kept. */
  method AtBackslash(buf: array<char>, p: nat, i: nat, ghost m: nat) returns (ghost m': nat)
    requires Terminated(buf, p, m) && p <= i < m && buf[i] == '\\'
    modifies buf
    ensures buf[..p] == old(buf[..p]) && i + 1 <= m' <= m && Terminated(buf, i + 1, m')
    ensures Prepend(old(buf[p..i]), Unquote(old(buf[i..m]))) == Prepend(buf[p..i + 1], Unquote(buf[i + 1..m']))
  {
    ghost var front := buf[..i];
    m' := Squeeze(buf, i, m);
    assert front[p..] == buf[p..i] && front[..p] == buf[..p];
    PrependTwice(buf[p..i], [buf[i]], Unquote(buf[i + 1..m']));
    assert buf[p..i + 1] == buf[p..i] + [buf[i]];
  }

  /** The text from p on to which r belongs is unquoted up to p2. */
  ghost predicate Reading(buf: array<char>, p: nat, p2: nat, m: nat, r: Option<string>)
    reads buf
  {
    p <= p2 && Terminated(buf, p2, m) && r == Prepend(buf[p..p2], Unquote(buf[p2..m]))
  }

  /** The same round, seen from the start of the text. */
  method UnquoteRound(buf: array<char>, ghost p: nat, p2: nat, ghost m: nat, ghost r: Option<string>)
    returns (end: Option<bool>, i: nat, ghost m': nat)
    requires Reading(buf, p, p2, m, r)
    modifies buf
    ensures buf[..p] == old(buf[..p])
    ensures match end
            case Some(false) => r == None
            case Some(true) => p <= i <= m && buf[i] == '\0' && r == Some(buf[p..i])
            case None => p2 < i <= m' <= m && Reading(buf, p, i, m', r)
  {
    ghost var w := buf[p..p2];
    ghost var front := buf[..p2];
    assert front[p..] == w && front[..p] == buf[..p];
    end, i, m' := UnquoteStep(buf, p2, m);
    assert buf[p..p2] == buf[..p2][p..] == w;
    assert buf[..p] == buf[..p2][..p];
    if end != Some(false) {
      assert buf[p..i] == w + buf[p2..i];
    }
    if end.None? {
      PrependTwice(w, buf[p2..i], Unquote(buf[i..m']));
    }
  }

  /** The loop of `conf_set_sym_val` over the text after the opening quote, which sits in the
      buffer from p on: backslashes are squeezed out, and the closing quote becomes the
      terminator. Without a closing quote the text is refused. */
  method UnquoteInPlace(buf: array<char>, p: nat, ghost n: nat) returns (found: bool)
    requires Terminated(buf, p, n)
    modifies buf
    ensures buf[..p] == old(buf[..p])
    ensures var r := Unquote(old(buf[p..n]));
            && (found <==> r.Some?)
            && (found ==> p + |r.value| <= n && buf[p..p + |r.value|] == r.value && buf[p + |r.value|] == '\0')
  {
    var p2: nat := p;
    ghost var m: nat, r := n, Unquote(buf[p..n]);
    PrependNothing(r);
    assert buf[p..p] == [];
    while true
      invariant m <= n && Reading(buf, p, p2, m, r)
      invariant buf[..p] == old(buf[..p])
      decreases n - p2
    {
      var end, i, m1 := UnquoteRound(buf, p, p2, m, r);
      if end.Some? {
        if end.value { Ended(buf[..], p, i, r); }
        return end.value;
      }
      p2, m := i, m1;
    }
  }

  lemma Ended(b: seq<char>, p: nat, i: nat, r: Option<string>)
    requires p <= i < |b| && b[i] == '\0' && r == Some(b[p..i])
    ensures p + |r.value| == i && b[p..p + |r.value|] == r.value && b[p + |r.value|] == '\0'
  {}
}
