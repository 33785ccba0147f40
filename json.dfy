/**
 * The `userVotes` metadata field: a JavaScript object from user identifier to
 * vote, written with `JSON.stringify` (server.js:196) and read back with
 * `JSON.parse` (server.js:72, 157).
 *
 * A JavaScript object keeps its properties in insertion order, and
 * `JSON.stringify` writes them in that order, so the object is modelled as a
 * sequence of (key, value) entries. Only objects whose values are strings are
 * modelled: that is all the store ever writes.
 */
module Json {
  import opened Wrappers

  /** A JavaScript object with string values, properties in order. */
  type Entries = seq<(string, string)>

  predicate UniqueKeys(e: Entries) {
    forall i, j :: 0 <= i < j < |e| ==> e[i].0 != e[j].0
  }

  /** `obj[k]`: the value of property `k`, None for `undefined`. */
  function Get(e: Entries, k: string): Option<string> {
    if e == [] then None
    else if e[0].0 == k then Some(e[0].1)
    else Get(e[1..], k)
  }

  predicate HasKey(e: Entries, k: string) {
    Get(e, k).Some?
  }

  /** A property is absent exactly when no entry carries its key. */
  lemma {:induction false} GetNoneIff(e: Entries, k: string)
    ensures !HasKey(e, k) <==> forall i :: 0 <= i < |e| ==> e[i].0 != k
  {
    if e != [] {
      GetNoneIff(e[1..], k);
      assert forall i :: 1 <= i < |e| ==> e[i] == e[1..][i - 1];
    }
  }

  /**
   * `obj[k] = v`: an existing property keeps its place and takes the new
   * value; a new property goes last.
   */
  function Put(e: Entries, k: string, v: string): (r: Entries)
    ensures Get(r, k) == Some(v)
    ensures forall k' :: k' != k ==> Get(r, k') == Get(e, k')
  {
    if e == [] then [(k, v)]
    else if e[0].0 == k then [(k, v)] + e[1..]
    else [e[0]] + Put(e[1..], k, v)
  }

  /** Where `obj[k] = v` puts the property: in its old place, or last. */
  lemma {:induction false} PutPlace(e: Entries, k: string, v: string)
    ensures HasKey(e, k) ==> |Put(e, k, v)| == |e| && forall i :: 0 <= i < |e| ==> Put(e, k, v)[i].0 == e[i].0
    ensures !HasKey(e, k) ==> Put(e, k, v) == e + [(k, v)]
  {
    if e != [] && e[0].0 != k {
      PutPlace(e[1..], k, v);
      assert [e[0]] + (e[1..] + [(k, v)]) == e + [(k, v)];
    }
  }

  /** `obj[k] = v` never makes a key appear twice. */
  lemma {:induction false} PutKeepsUniqueKeys(e: Entries, k: string, v: string)
    ensures UniqueKeys(e) ==> UniqueKeys(Put(e, k, v))
  {
    if e != [] && UniqueKeys(e) {
      var r := Put(e, k, v);
      if e[0].0 == k {
        assert forall i :: 0 <= i < |e| ==> r[i].0 == e[i].0;
      } else {
        var tail := Put(e[1..], k, v);
        assert r == [e[0]] + tail;
        PutKeepsUniqueKeys(e[1..], k, v);
        assert forall i :: 0 <= i < |e| - 1 ==> e[1..][i].0 != e[0].0;
        GetNoneIff(e[1..], e[0].0);
        GetNoneIff(tail, e[0].0);
        forall i, j | 0 <= i < j < |r|
          ensures r[i].0 != r[j].0
        {
          assert r[j] == tail[j - 1];
          if i > 0 {
            assert r[i] == tail[i - 1];
          }
        }
      }
    }
  }

  /** How many properties hold the value `v`. */
  function Count(e: Entries, v: string): nat {
    if e == [] then 0 else (if e[0].1 == v then 1 else 0) + Count(e[1..], v)
  }

  /** Replacing the value of `k` moves one property from its old value to `v`. */
  lemma {:induction false} CountPut(e: Entries, k: string, v: string, x: string)
    ensures Count(Put(e, k, v), x) + (if Get(e, k) == Some(x) then 1 else 0)
         == Count(e, x) + (if v == x then 1 else 0)
  {
    if e != [] && e[0].0 != k {
      CountPut(e[1..], k, v, x);
    }
  }

  /** A property holding `v` is counted. */
  lemma {:induction false} CountPositive(e: Entries, k: string, v: string)
    requires Get(e, k) == Some(v)
    ensures Count(e, v) >= 1
  {
    if e[0].0 != k {
      CountPositive(e[1..], k, v);
    }
  }

  /**
   * The value a key takes when the entries of `e` are assigned in turn: the
   * value of its last entry, None when no entry carries it.
   */
  function Latest(e: Entries, k: string): Option<string> {
    if e == [] then None
    else
      var later := Latest(e[1..], k);
      if later.Some? then later else if e[0].0 == k then Some(e[0].1) else None
  }

  /**
   * Assigning the entries of `e` one after another to `acc`, as `JSON.parse`
   * does with the members it reads: a repeated key keeps its first place and
   * takes its last value.
   */
  function PutAll(acc: Entries, e: Entries): (r: Entries)
    ensures forall k :: Get(r, k) == if Latest(e, k).Some? then Latest(e, k) else Get(acc, k)
    decreases |e|
  {
    if e == [] then acc else PutAll(Put(acc, e[0].0, e[0].1), e[1..])
  }

  /** Assigning properties that are all new appends them in order. */
  lemma {:induction false} PutAllFresh(acc: Entries, e: Entries)
    requires UniqueKeys(acc + e)
    ensures PutAll(acc, e) == acc + e
    decreases |e|
  {
    if e != [] {
      var p := e[0];
      forall i | 0 <= i < |acc|
        ensures acc[i].0 != p.0
      {
        assert (acc + e)[i] == acc[i];
        assert (acc + e)[|acc|] == p;
      }
      GetNoneIff(acc, p.0);
      PutPlace(acc, p.0, p.1);
      AppendAssoc(acc, [p], e[1..]);
      assert [p] + e[1..] == e;
      PutAllFresh(acc + [p], e[1..]);
    }
  }

  // ---------------------------------------------------------------------
  // JSON.stringify

  function HexDigit(d: nat): (c: char)
    requires d < 16
  {
    if d < 10 then ('0' as int + d) as char else ('a' as int + d - 10) as char
  }

  function HexValue(c: char): (r: Option<nat>)
    ensures r.Some? ==> r.value < 16
  {
    if '0' <= c <= '9' then Some(c as int - '0' as int)
    else if 'a' <= c <= 'f' then Some(c as int - 'a' as int + 10)
    else if 'A' <= c <= 'F' then Some(c as int - 'A' as int + 10)
    else None
  }

  /** How `JSON.stringify` writes one character inside a string literal. */
  function EscapeChar(c: char): (t: string)
    ensures |t| > 0 && t[0] != '"'
  {
    if c == '"' then ['\\', '"']
    else if c == '\\' then ['\\', '\\']
    else if c as int == 8 then ['\\', 'b']
    else if c == '\t' then ['\\', 't']
    else if c == '\n' then ['\\', 'n']
    else if c as int == 12 then ['\\', 'f']
    else if c == '\r' then ['\\', 'r']
    else if (c as int) < 0x20 then ['\\', 'u', '0', '0', HexDigit(c as int / 16), HexDigit(c as int % 16)]
    else [c]
  }

  function Escape(s: string): string {
    if s == [] then [] else EscapeChar(s[0]) + Escape(s[1..])
  }

  function Quote(s: string): string {
    ['"'] + (Escape(s) + ['"'])
  }

  function MemberText(p: (string, string)): string {
    Quote(p.0) + ([':'] + Quote(p.1))
  }

  /** The members after the first, each preceded by a comma. */
  function RestText(e: Entries): string {
    if e == [] then [] else [','] + (MemberText(e[0]) + RestText(e[1..]))
  }

  /** `JSON.stringify(obj)`: compact, properties in order. */
  function Stringify(e: Entries): (s: string)
    ensures |s| >= 2 && s[0] == '{' && s[|s| - 1] == '}'
  {
    if e == [] then ['{', '}'] else ['{'] + (MemberText(e[0]) + (RestText(e[1..]) + ['}']))
  }

  // ---------------------------------------------------------------------
  // JSON.parse, for objects with string values

  predicate IsWhitespace(c: char) {
    c == ' ' || c == '\t' || c == '\n' || c == '\r'
  }

  function SkipWhitespace(s: string): (r: string)
    ensures |r| <= |s|
    ensures r == [] || !IsWhitespace(r[0])
  {
    if s != [] && IsWhitespace(s[0]) then SkipWhitespace(s[1..]) else s
  }

  /** Four hexadecimal digits as a code unit. */
  function HexQuad(s: string): (r: Option<nat>)
    requires |s| == 4
    ensures r.Some? ==> r.value < 0x10000
  {
    match (HexValue(s[0]), HexValue(s[1]), HexValue(s[2]), HexValue(s[3]))
    case (Some(a), Some(b), Some(c), Some(d)) => Some(((a * 16 + b) * 16 + c) * 16 + d)
    case _ => None
  }

  /** The character a high and a low surrogate code unit encode together in UTF-16. */
  function SurrogatePair(high: nat, low: nat): (c: char)
    requires 0xD800 <= high < 0xDC00 && 0xDC00 <= low < 0xE000
    ensures 0x10000 <= c as int
  {
    (0x10000 + (high - 0xD800) * 0x400 + (low - 0xDC00)) as char
  }

  /**
   * One character of a string literal, `s` not at its closing quote:
   * the character and the text after it. A raw control character or an
   * unknown escape is a syntax error. A `\u` escape of a high surrogate
   * followed by one of a low surrogate is the one character they encode; a
   * surrogate escape outside such a pair is not modelled and reads as an error.
   */
  function ParseChar(s: string): (r: Option<(char, string)>)
    requires |s| > 0 && s[0] != '"'
    ensures r.Some? ==> |r.value.1| < |s|
  {
    if s[0] == '\\' then
      if |s| < 2 then None
      else if s[1] == '"' || s[1] == '\\' || s[1] == '/' then Some((s[1], s[2..]))
      else if s[1] == 'b' then Some((8 as char, s[2..]))
      else if s[1] == 't' then Some(('\t', s[2..]))
      else if s[1] == 'n' then Some(('\n', s[2..]))
      else if s[1] == 'f' then Some((12 as char, s[2..]))
      else if s[1] == 'r' then Some(('\r', s[2..]))
      else if s[1] == 'u' && |s| >= 6 then
        match HexQuad(s[2..6])
        case Some(code) =>
          if code < 0xD800 || 0xE000 <= code then Some((code as char, s[6..]))
          else if code < 0xDC00 && |s| >= 12 && s[6] == '\\' && s[7] == 'u' then
            match HexQuad(s[8..12])
            case Some(low) =>
              if 0xDC00 <= low < 0xE000 then Some((SurrogatePair(code, low), s[12..])) else None
            case None => None
          else None
        case None => None
      else None
    else if (s[0] as int) < 0x20 then None
    else Some((s[0], s[1..]))
  }

  /*
   * The reader is a scanner with one function per place in the text, each
   * passing on what is left of the text and the members read so far (`acc`).
   * A repeated key overwrites the earlier value in place, as `JSON.parse`
   * does.
   */

  /** Whether the string literal being read is a key, or the value of `key`. */
  datatype Slot = KeySlot | ValueSlot(key: string)

  /** After the closing `}`: only whitespace may follow. */
  function AtEnd(s: string, acc: Entries): (r: Option<Entries>)
    ensures r.Some? ==> r.value == acc
  {
    if SkipWhitespace(s) == [] then Some(acc) else None
  }

  /** After `{`: the closing `}` or the opening quote of the first key. */
  function AfterOpen(s: string, acc: Entries): (r: Option<Entries>)
    ensures UniqueKeys(acc) && r.Some? ==> UniqueKeys(r.value)
  {
    var t := SkipWhitespace(s);
    if t == [] then None
    else if t[0] == '}' then AtEnd(t[1..], acc)
    else if t[0] == '"' then InString(t[1..], KeySlot, [], acc)
    else None
  }

  /** Inside a string literal whose characters so far are `buf`. */
  function InString(s: string, slot: Slot, buf: string, acc: Entries): (r: Option<Entries>)
    ensures UniqueKeys(acc) && r.Some? ==> UniqueKeys(r.value)
    decreases |s|
  {
    if s == [] then None
    else if s[0] == '"' then
      match slot
      case KeySlot => AfterKey(s[1..], buf, acc)
      case ValueSlot(key) =>
        PutKeepsUniqueKeys(acc, key, buf);
        AfterMember(s[1..], Put(acc, key, buf))
    else
      match ParseChar(s)
      case None => None
      case Some((c, t)) => InString(t, slot, buf + [c], acc)
  }

  /** After a key: `:` and the opening quote of its value. */
  function AfterKey(s: string, key: string, acc: Entries): (r: Option<Entries>)
    ensures UniqueKeys(acc) && r.Some? ==> UniqueKeys(r.value)
    decreases |s|
  {
    var t := SkipWhitespace(s);
    if t == [] || t[0] != ':' then None
    else
      var u := SkipWhitespace(t[1..]);
      if u == [] || u[0] != '"' then None
      else InString(u[1..], ValueSlot(key), [], acc)
  }

  /** After a member: `,` and the opening quote of the next key, or the closing `}`. */
  function AfterMember(s: string, acc: Entries): (r: Option<Entries>)
    ensures UniqueKeys(acc) && r.Some? ==> UniqueKeys(r.value)
    decreases |s|
  {
    var t := SkipWhitespace(s);
    if t == [] then None
    else if t[0] == '}' then AtEnd(t[1..], acc)
    else if t[0] == ',' then
      var u := SkipWhitespace(t[1..]);
      if u == [] || u[0] != '"' then None
      else InString(u[1..], KeySlot, [], acc)
    else None
  }

  /** `JSON.parse(s)` for an object with string values; None is a thrown SyntaxError. */
  function ParseObject(s: string): (r: Option<Entries>)
    ensures r.Some? ==> UniqueKeys(r.value)
  {
    var t := SkipWhitespace(s);
    if t == [] || t[0] != '{' then None else AfterOpen(t[1..], [])
  }

  // ---------------------------------------------------------------------
  // Round trip

  lemma ParseCharOfEscape(c: char, rest: string)
    ensures ParseChar(EscapeChar(c) + rest) == Some((c, rest))
  {
    var s := EscapeChar(c) + rest;
    if c != '"' && c != '\\' && c as int != 8 && c != '\t' && c != '\n' && c as int != 12 && c != '\r'
       && (c as int) < 0x20 {
      var hi, lo := c as int / 16, c as int % 16;
      assert s[2..6] == ['0', '0', HexDigit(hi), HexDigit(lo)];
      assert HexValue(HexDigit(hi)) == Some(hi);
      assert HexValue(HexDigit(lo)) == Some(lo);
      assert HexQuad(s[2..6]) == Some(c as int);
      assert s[6..] == rest;
    } else if |EscapeChar(c)| == 2 {
      assert s[2..] == rest;
    } else {
      assert s[1..] == rest;
    }
  }

  /** Four lower-case hexadecimal digits of a code unit, as a `\u` escape carries them. */
  function HexQuadText(n: nat): (t: string)
    requires n < 0x10000
    ensures |t| == 4
  {
    [HexDigit(n / 0x1000), HexDigit(n / 0x100 % 16), HexDigit(n / 16 % 16), HexDigit(n % 16)]
  }

  lemma HexValueOfDigit(d: nat)
    requires d < 16
    ensures HexValue(HexDigit(d)) == Some(d)
  {
  }

  lemma DivideBySixteen(n: nat)
    ensures n / 16 * 16 + n % 16 == n
    ensures n / 16 / 16 == n / 0x100
    ensures n / 0x100 / 16 == n / 0x1000
  {
  }

  lemma HexQuadOfText(n: nat)
    requires n < 0x10000
    ensures HexQuad(HexQuadText(n)) == Some(n)
  {
    var a, b, c, d := n / 0x1000, n / 0x100 % 16, n / 16 % 16, n % 16;
    DivideBySixteen(n);
    DivideBySixteen(n / 16);
    DivideBySixteen(n / 0x100);
    assert a * 16 + b == n / 0x100;
    assert (a * 16 + b) * 16 + c == n / 16;
    HexValueOfDigit(n / 0x1000);
    HexValueOfDigit(n / 0x100 % 16);
    HexValueOfDigit(n / 16 % 16);
    HexValueOfDigit(n % 16);
  }

  /** A character beyond the 16-bit range written as the `\u` escapes of its UTF-16 surrogate pair. */
  function PairEscape(c: char): (t: string)
    requires 0x10000 <= c as int
    ensures |t| == 12
  {
    var x := c as int - 0x10000;
    ['\\', 'u'] + HexQuadText(0xD800 + x / 0x400) + ['\\', 'u'] + HexQuadText(0xDC00 + x % 0x400)
  }

  /** An escaped surrogate pair reads back as the one character it encodes. */
  lemma ParseCharOfPairEscape(c: char, rest: string)
    requires 0x10000 <= c as int
    ensures ParseChar(PairEscape(c) + rest) == Some((c, rest))
  {
    var x := c as int - 0x10000;
    var high, low := 0xD800 + x / 0x400, 0xDC00 + x % 0x400;
    var s := PairEscape(c) + rest;
    assert s[2..6] == HexQuadText(high);
    assert s[8..12] == HexQuadText(low);
    assert s[6] == '\\' && s[7] == 'u';
    assert s[12..] == rest;
    HexQuadOfText(high);
    HexQuadOfText(low);
    assert SurrogatePair(high, low) as int == c as int;
  }

  lemma AppendAssoc<T>(a: seq<T>, b: seq<T>, c: seq<T>)
    ensures (a + b) + c == a + (b + c)
  {
  }

  /** A quoted string followed by `y`, regrouped as the scanner reads it. */
  lemma QuoteThen(s: string, y: string)
    ensures Quote(s) + y == ['"'] + (Escape(s) + (['"'] + y))
  {
    AppendAssoc(['"'], Escape(s) + ['"'], y);
    AppendAssoc(Escape(s), ['"'], y);
  }

  /** A member's text followed by `rest`, regrouped as the scanner reads it. */
  lemma MemberThen(p: (string, string), rest: string)
    ensures MemberText(p) + rest
         == ['"'] + (Escape(p.0) + (['"'] + ([':'] + (['"'] + (Escape(p.1) + (['"'] + rest))))))
  {
    AppendAssoc(Quote(p.0), [':'] + Quote(p.1), rest);
    AppendAssoc([':'], Quote(p.1), rest);
    QuoteThen(p.1, rest);
    QuoteThen(p.0, [':'] + (Quote(p.1) + rest));
  }

  // One step of the scanner on text as `JSON.stringify` writes it.

  lemma InStringChar(s: string, slot: Slot, buf: string, acc: Entries, c: char, t: string)
    requires |s| > 0 && s[0] != '"' && ParseChar(s) == Some((c, t))
    ensures InString(s, slot, buf, acc) == InString(t, slot, buf + [c], acc)
  {
  }

  lemma InStringClose(rest: string, slot: Slot, buf: string, acc: Entries)
    ensures InString(['"'] + rest, slot, buf, acc)
         == match slot
            case KeySlot => AfterKey(rest, buf, acc)
            case ValueSlot(key) => AfterMember(rest, Put(acc, key, buf))
  {
    assert (['"'] + rest)[1..] == rest;
  }

  lemma AfterKeyColon(x: string, key: string, acc: Entries)
    ensures AfterKey([':'] + (['"'] + x), key, acc) == InString(x, ValueSlot(key), [], acc)
  {
    var s := [':'] + (['"'] + x);
    assert SkipWhitespace(s) == s;
    assert s[1..] == ['"'] + x;
    assert SkipWhitespace(s[1..]) == s[1..];
    assert s[1..][1..] == x;
  }

  lemma AfterMemberComma(x: string, acc: Entries)
    ensures AfterMember([','] + (['"'] + x), acc) == InString(x, KeySlot, [], acc)
  {
    var s := [','] + (['"'] + x);
    assert SkipWhitespace(s) == s;
    assert s[1..] == ['"'] + x;
    assert SkipWhitespace(s[1..]) == s[1..];
    assert s[1..][1..] == x;
  }

  lemma AfterMemberClose(acc: Entries)
    ensures AfterMember(['}'], acc) == Some(acc)
  {
    assert ['}'][1..] == [];
  }

  lemma ParseObjectOpen(x: string)
    ensures ParseObject(['{'] + (['"'] + x)) == InString(x, KeySlot, [], [])
  {
    var s := ['{'] + (['"'] + x);
    assert SkipWhitespace(s) == s;
    assert s[1..] == ['"'] + x;
    assert SkipWhitespace(s[1..]) == s[1..];
    assert s[1..][1..] == x;
  }

  /** The escaped text of `body` reads back as `body`, up to the closing quote. */
  lemma {:induction false} InStringOfEscape(body: string, rest: string, slot: Slot, buf: string, acc: Entries)
    ensures InString(Escape(body) + (['"'] + rest), slot, buf, acc) == InString(['"'] + rest, slot, buf + body, acc)
  {
    if body == [] {
      assert Escape(body) + (['"'] + rest) == ['"'] + rest;
      assert buf + body == buf;
    } else {
      var tail := Escape(body[1..]) + (['"'] + rest);
      var s := EscapeChar(body[0]) + tail;
      AppendAssoc(EscapeChar(body[0]), Escape(body[1..]), ['"'] + rest);
      ParseCharOfEscape(body[0], tail);
      InStringChar(s, slot, buf, acc, body[0], tail);
      InStringOfEscape(body[1..], rest, slot, buf + [body[0]], acc);
      AppendAssoc(buf, [body[0]], body[1..]);
      assert [body[0]] + body[1..] == body;
    }
  }

  /** A member's text, after the opening quote of its key, reads as that member. */
  lemma MemberOfText(p: (string, string), rest: string, acc: Entries)
    ensures InString(Escape(p.0) + (['"'] + ([':'] + (['"'] + (Escape(p.1) + (['"'] + rest))))), KeySlot, [], acc)
         == AfterMember(rest, Put(acc, p.0, p.1))
  {
    var r1 := [':'] + (['"'] + (Escape(p.1) + (['"'] + rest)));
    InStringOfEscape(p.0, r1, KeySlot, [], acc);
    assert [] + p.0 == p.0;
    InStringClose(r1, KeySlot, p.0, acc);
    AfterKeyColon(Escape(p.1) + (['"'] + rest), p.0, acc);
    InStringOfEscape(p.1, rest, ValueSlot(p.0), [], acc);
    assert [] + p.1 == p.1;
    InStringClose(rest, ValueSlot(p.0), p.1, acc);
  }

  /** The text of the members after the first, with the closing brace, reads as those members assigned in turn. */
  lemma {:induction false} AfterMemberOfText(e: Entries, acc: Entries)
    ensures AfterMember(RestText(e) + ['}'], acc) == Some(PutAll(acc, e))
    decreases |e|
  {
    if e == [] {
      assert RestText(e) + ['}'] == ['}'];
      AfterMemberClose(acc);
    } else {
      var p, rest := e[0], RestText(e[1..]) + ['}'];
      var x := Escape(p.0) + (['"'] + ([':'] + (['"'] + (Escape(p.1) + (['"'] + rest)))));
      AppendAssoc([','], MemberText(p) + RestText(e[1..]), ['}']);
      AppendAssoc(MemberText(p), RestText(e[1..]), ['}']);
      MemberThen(p, rest);
      AfterMemberComma(x, acc);
      MemberOfText(p, rest, acc);
      AfterMemberOfText(e[1..], Put(acc, p.0, p.1));
    }
  }

  /**
   * `JSON.parse` of the text of any entries, repeated keys included, assigns
   * them in turn: a repeated key keeps its first place and its last value.
   */
  lemma ParseOfText(e: Entries)
    ensures ParseObject(Stringify(e)) == Some(PutAll([], e))
  {
    var s := Stringify(e);
    if e == [] {
      assert SkipWhitespace(s) == s;
      assert s[1..] == ['}'];
    } else {
      var p, rest := e[0], RestText(e[1..]) + ['}'];
      var x := Escape(p.0) + (['"'] + ([':'] + (['"'] + (Escape(p.1) + (['"'] + rest)))));
      MemberThen(p, rest);
      ParseObjectOpen(x);
      MemberOfText(p, rest, []);
      AfterMemberOfText(e[1..], Put([], p.0, p.1));
    }
  }

  /** `JSON.parse(JSON.stringify(obj))` gives `obj` back. */
  lemma ParseOfStringify(e: Entries)
    requires UniqueKeys(e)
    ensures ParseObject(Stringify(e)) == Some(e)
  {
    ParseOfText(e);
    assert [] + e == e;
    PutAllFresh([], e);
  }
}
