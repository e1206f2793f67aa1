/**
 * The escaping codec `neos_escape` / `neos_unescape` and the quoting of `repr_string_alloc`:
 * encoders that size their output in one pass and fill it in a second, and a decoder that
 * rewrites its input in place.
 */
module Escape {
  import opened Bytes
  import opened HdfDoc

  /** The value of a byte held in a plain `char`. */
  function Signed(b: Byte): int {
    if b < 128 then b else b - 256
  }

  predicate Listed(b: Byte, list: seq<Byte>) {
    exists i :: 0 <= i < |list| && Signed(list[i]) == b
  }

  predicate MustEscape(b: Byte, esc: Byte, list: seq<Byte>) {
    b == Signed(esc) || Listed(b, list)
  }

  function HexDigit(n: nat): (r: Byte)
    requires n < 16
    ensures IsHex(r) && HexValue(r) == n && r < 97
  {
    if n < 10 then 48 + n else 55 + n
  }

  predicate IsHex(b: Byte) {
    48 <= b <= 57 || 65 <= b <= 70 || 97 <= b <= 102
  }

  function HexValue(b: Byte): (n: nat)
    requires IsHex(b)
    ensures n < 16
  {
    if b >= 97 then b - 87 else if b >= 65 then b - 55 else b - 48
  }

  function EscapeByte(b: Byte, esc: Byte, list: seq<Byte>): seq<Byte> {
    if MustEscape(b, esc, list) then [esc, HexDigit(b / 16), HexDigit(b % 16)] else [b]
  }

  function EscapeAll(data: seq<Byte>, esc: Byte, list: seq<Byte>): seq<Byte> {
    if data == [] then [] else EscapeAll(data[..|data| - 1], esc, list) + EscapeByte(data[|data| - 1], esc, list)
  }

  predicate IsEscape(s: seq<Byte>, esc: Byte) {
    |s| >= 3 && s[0] == Signed(esc) && IsHex(s[1]) && IsHex(s[2])
  }

  function UnescapeAll(s: seq<Byte>, esc: Byte): seq<Byte> {
    if s == [] then []
    else if IsEscape(s, esc) then [16 * HexValue(s[1]) + HexValue(s[2])] + UnescapeAll(s[3..], esc)
    else [s[0]] + UnescapeAll(s[1..], esc)
  }

  // ----- Decoding undoes encoding -----

  lemma UnescapeByte(b: Byte, esc: Byte, list: seq<Byte>, rest: seq<Byte>)
    requires esc < 128
    ensures UnescapeAll(EscapeByte(b, esc, list) + rest, esc) == [b] + UnescapeAll(rest, esc)
  {
    var s := EscapeByte(b, esc, list) + rest;
    if MustEscape(b, esc, list) {
      assert s[3..] == rest;
    } else {
      assert s[1..] == rest;
    }
  }

  lemma {:induction false} UnescapeAfterEscape(data: seq<Byte>, esc: Byte, list: seq<Byte>, rest: seq<Byte>)
    requires esc < 128
    ensures UnescapeAll(EscapeAll(data, esc, list) + rest, esc) == data + UnescapeAll(rest, esc)
  {
    hide UnescapeAll, EscapeByte;
    if data == [] {
      assert EscapeAll(data, esc, list) + rest == rest;
      assert data + UnescapeAll(rest, esc) == UnescapeAll(rest, esc);
    } else {
      var init, b := data[..|data| - 1], data[|data| - 1];
      var one := EscapeByte(b, esc, list);
      assert EscapeAll(data, esc, list) + rest == EscapeAll(init, esc, list) + (one + rest);
      UnescapeAfterEscape(init, esc, list, one + rest);
      UnescapeByte(b, esc, list, rest);
      assert init + ([b] + UnescapeAll(rest, esc)) == data + UnescapeAll(rest, esc);
    }
  }

  // An escape character above 127 is negative in a plain char and never equals a byte

  lemma {:induction false} HighEscapeIsNotRead(s: seq<Byte>, esc: Byte)
    requires esc >= 128
    ensures UnescapeAll(s, esc) == s
  {
    if s == [] {
    } else {
      HighEscapeIsNotRead(s[1..], esc);
    }
  }

  predicate AnyListed(data: seq<Byte>, list: seq<Byte>) {
    exists i :: 0 <= i < |data| && Listed(data[i], list)
  }

  lemma {:induction false} HighEscapeGrows(data: seq<Byte>, esc: Byte, list: seq<Byte>)
    requires esc >= 128
    ensures |EscapeAll(data, esc, list)| >= |data|
    ensures if AnyListed(data, list) then |EscapeAll(data, esc, list)| > |data| else EscapeAll(data, esc, list) == data
  {
    if data == [] {
    } else {
      var init := data[..|data| - 1];
      HighEscapeGrows(init, esc, list);
      assert data == init + [data[|data| - 1]];
      if AnyListed(data, list) && !Listed(data[|data| - 1], list) {
        var i :| 0 <= i < |data| && Listed(data[i], list);
        assert init[i] == data[i];
      }
      if AnyListed(init, list) {
        var i :| 0 <= i < |init| && Listed(init[i], list);
        assert data[i] == init[i];
      }
    }
  }

  /** The round trip works exactly for ASCII escape characters, or when there is nothing to escape. */
  lemma RoundTrip(data: seq<Byte>, esc: Byte, list: seq<Byte>)
    ensures UnescapeAll(EscapeAll(data, esc, list), esc) == data <==> esc < 128 || !AnyListed(data, list)
  {
    hide UnescapeAll, EscapeAll;
    var s := EscapeAll(data, esc, list);
    if esc < 128 {
      UnescapeAfterEscape(data, esc, list, []);
      assert s + [] == s;
      NothingLeft(esc);
      assert data + [] == data;
    } else {
      HighEscapeIsNotRead(s, esc);
      HighEscapeGrows(data, esc, list);
    }
  }

  /** An escape character above 127 is written and not recognised again. */
  lemma HighEscapeFails()
    ensures EscapeAll([97], 128, [97]) == [128, 54, 49]
    ensures UnescapeAll(EscapeAll([97], 128, [97]), 128) == [128, 54, 49]
  {
    HighEscapeIsNotRead([128, 54, 49], 128);
  }

  /** Bytes that are neither listed nor the escape character stay as they are; nothing else does. */
  lemma {:induction false} EscapesOnlyListed(data: seq<Byte>, esc: Byte, list: seq<Byte>)
    ensures EscapeAll(data, esc, list) == data <==>
            forall i :: 0 <= i < |data| ==> data[i] != Signed(esc) && !Listed(data[i], list)
    ensures |EscapeAll(data, esc, list)| >= |data|
    ensures (exists i :: 0 <= i < |data| && MustEscape(data[i], esc, list)) ==> |EscapeAll(data, esc, list)| > |data|
  {
    if data == [] {
    } else {
      var init, b := data[..|data| - 1], data[|data| - 1];
      EscapesOnlyListed(init, esc, list);
      assert data == init + [b];
      hide Listed;
    }
  }

  predicate NoneListed(s: seq<Byte>, list: seq<Byte>) {
    forall i :: 0 <= i < |s| ==> !Listed(s[i], list)
  }

  /** No listed byte is left, if the list has no hex digits and not the escape character. */
  lemma {:induction false} NoneListedIsLeft(data: seq<Byte>, esc: Byte, list: seq<Byte>)
    requires !Listed(esc, list) && forall b: Byte :: IsHex(b) && b < 97 ==> !Listed(b, list)
    ensures NoneListed(EscapeAll(data, esc, list), list)
  {
    if data == [] {
    } else {
      var init, b := data[..|data| - 1], data[|data| - 1];
      NoneListedIsLeft(init, esc, list);
      NoneInOne(b, esc, list);
      hide Listed, EscapeByte;
      NoneListedJoins(EscapeAll(init, esc, list), EscapeByte(b, esc, list), list);
    }
  }

  lemma NoneListedJoins(a: seq<Byte>, b: seq<Byte>, list: seq<Byte>)
    requires NoneListed(a, list) && NoneListed(b, list)
    ensures NoneListed(a + b, list)
  {
    hide Listed;
    forall i | 0 <= i < |a + b| ensures !Listed((a + b)[i], list) {
      if i < |a| {
        assert !Listed(a[i], list);
      } else {
        assert !Listed(b[i - |a|], list);
      }
    }
  }

  lemma NoneInOne(b: Byte, esc: Byte, list: seq<Byte>)
    requires !Listed(esc, list) && forall b: Byte :: IsHex(b) && b < 97 ==> !Listed(b, list)
    ensures NoneListed(EscapeByte(b, esc, list), list)
  {
    hide Listed;
  }

  /** Text without the escape character is decoded as it is. */
  lemma {:induction false} NothingToDecode(s: seq<Byte>, esc: Byte)
    requires forall i :: 0 <= i < |s| ==> s[i] != Signed(esc)
    ensures UnescapeAll(s, esc) == s
  {
    if s == [] {
    } else {
      NothingToDecode(s[1..], esc);
    }
  }

  /** Hex digits are written in upper case and read in either case. */
  lemma HexCase()
    ensures EscapeAll([0x6F], 37, [0x6F]) == [37, 54, 70]
    ensures UnescapeAll([37, 54, 70], 37) == [0x6F] && UnescapeAll([37, 54, 102], 37) == [0x6F]
    ensures UnescapeAll([37, 54], 37) == [37, 54]
  {
    assert [0x6F][..0] == [] && Listed(0x6F, [0x6F]) by {
      assert [0x6F][0] == 0x6F;
    }
    assert EscapeAll([], 37, [0x6F]) == [];
    assert [37, 54, 70][3..] == [] && [37, 54, 102][3..] == [];
    assert [37, 54][1..] == [54] && [54][1..] == [];
  }

  lemma NothingLeft(esc: Byte)
    ensures UnescapeAll([], esc) == []
  {}

  // ----- The C functions -----

  method InList(b: Byte, list: seq<Byte>) returns (r: bool)
    ensures r == Listed(b, list)
  {
    var x := 0;
    while x < |list|
      invariant 0 <= x <= |list|
      invariant forall i :: 0 <= i < x ==> Signed(list[i]) != b
    {
      if Signed(list[x]) == b {
        return true;
      }
      x := x + 1;
    }
    return false;
  }

  /** `neos_escape`: the first pass counts exactly what the second one writes. */
  method NeosEscape(buf: array<Byte>, esc: Byte, list: seq<Byte>) returns (s: array<Byte>)
    ensures fresh(s)
    ensures s.Length == |EscapeAll(buf[..], esc, list)| + 1
    ensures s[..s.Length - 1] == EscapeAll(buf[..], esc, list) && s[s.Length - 1] == 0
  {
    var nl := SizeEscaped(buf, esc, list);
    s := new Byte[nl + 1](_ => 0);
    FillEscaped(buf, esc, list, s);
  }

  method SizeEscaped(buf: array<Byte>, esc: Byte, list: seq<Byte>) returns (nl: nat)
    ensures nl == |EscapeAll(buf[..], esc, list)|
  {
    nl := 0;
    var l := 0;
    while l < buf.Length
      invariant 0 <= l <= buf.Length && nl == |EscapeAll(buf[..l], esc, list)|
    {
      if buf[l] == Signed(esc) {
        nl := nl + 2;
      } else {
        var found := InList(buf[l], list);
        if found {
          nl := nl + 2;
        }
      }
      assert buf[..l + 1][..l] == buf[..l];
      nl := nl + 1;
      l := l + 1;
    }
    assert buf[..l] == buf[..];
  }

  lemma {:induction false} EscapedPrefix(data: seq<Byte>, l: nat, esc: Byte, list: seq<Byte>)
    requires l < |data|
    ensures EscapeAll(data[..l + 1], esc, list) == EscapeAll(data[..l], esc, list) + EscapeByte(data[l], esc, list)
    ensures |EscapeAll(data[..l + 1], esc, list)| <= |EscapeAll(data, esc, list)|
    decreases |data|
  {
    assert data[..l + 1][..l] == data[..l];
    if l + 1 == |data| {
      assert data[..l + 1] == data;
    } else {
      var init := data[..|data| - 1];
      EscapedPrefix(init, l, esc, list);
      assert init[..l + 1] == data[..l + 1];
    }
  }

  method FillEscaped(buf: array<Byte>, esc: Byte, list: seq<Byte>, s: array<Byte>)
    requires s != buf && s.Length == |EscapeAll(buf[..], esc, list)| + 1
    modifies s
    ensures s[..s.Length - 1] == EscapeAll(buf[..], esc, list) && s[s.Length - 1] == 0
  {
    hide EscapeAll;
    ghost var data := buf[..];
    var nl, l := 0, 0;
    EscapeNothing(esc, list);
    assert data[..0] == [];
    while l < buf.Length
      invariant 0 <= l <= buf.Length && buf[..] == data
      invariant nl == |EscapeAll(data[..l], esc, list)| <= s.Length - 1
      invariant s[..nl] == EscapeAll(data[..l], esc, list)
    {
      EscapedPrefix(data, l, esc, list);
      ghost var done := s[..nl];
      var match_ := buf[l] == Signed(esc);
      if !match_ {
        match_ := InList(buf[l], list);
      }
      if match_ {
        s[nl] := esc;
        s[nl + 1] := HexDigit(buf[l] / 16);
        s[nl + 2] := HexDigit(buf[l] % 16);
        nl := nl + 3;
      } else {
        s[nl] := buf[l];
        nl := nl + 1;
      }
      assert s[..nl] == done + EscapeByte(data[l], esc, list);
      l := l + 1;
    }
    assert data[..l] == data;
    s[nl] := 0;
  }

  lemma EscapeNothing(esc: Byte, list: seq<Byte>)
    ensures EscapeAll([], esc, list) == []
  {}

  /** One round of `neos_unescape`: the byte that the input from i on starts with, and how far it reaches. */
  method DecodeOne(s: array<Byte>, i: nat, n: nat, esc: Byte, ghost rest: seq<Byte>) returns (b: Byte, next: nat)
    requires i < n <= s.Length && rest == s[i..n]
    ensures i < next <= n
    ensures UnescapeAll(rest, esc) == [b] + UnescapeAll(rest[next - i..], esc)
  {
    hide UnescapeAll;
    UnescapeStep(rest, esc);
    if s[i] == Signed(esc) && i + 2 < n && IsHex(s[i + 1]) && IsHex(s[i + 2]) {
      b, next := 16 * HexValue(s[i + 1]) + HexValue(s[i + 2]), i + 3;
    } else {
      b, next := s[i], i + 1;
    }
  }

  /** `neos_unescape`: decode the first n bytes in place; `o` of them remain, and a NUL follows. */
  method NeosUnescape(s: array<Byte>, n: nat, esc: Byte) returns (o: nat)
    requires n < s.Length
    modifies s
    ensures o <= n && s[..o] == UnescapeAll(old(s[..n]), esc)
    ensures n > 0 ==> s[o] == 0
  {
    hide UnescapeAll;
    ghost var was := s[..n];
    var i := 0;
    o := 0;
    while i < n
      invariant 0 <= o <= i <= n && (i > 0 ==> o > 0)
      invariant forall k :: i <= k < n ==> s[k] == was[k]
      invariant UnescapeAll(was, esc) == s[..o] + UnescapeAll(was[i..], esc)
    {
      assert s[i..n] == was[i..];
      var b, next := DecodeOne(s, i, n, esc, was[i..]);
      assert was[i..][next - i..] == was[next..];
      ghost var done := s[..o];
      s[o] := b;
      assert s[..o + 1] == done + [b];
      assert done + ([b] + UnescapeAll(was[next..], esc)) == s[..o + 1] + UnescapeAll(was[next..], esc);
      i, o := next, o + 1;
    }
    NothingLeft(esc);
    assert was[n..] == [] && s[..o] + [] == s[..o];
    if i > 0 && o > 0 {
      s[o] := 0;
    }
  }

  lemma UnescapeStep(s: seq<Byte>, esc: Byte)
    requires s != []
    ensures UnescapeAll(s, esc) ==
            if IsEscape(s, esc) then [16 * HexValue(s[1]) + HexValue(s[2])] + UnescapeAll(s[3..], esc)
            else [s[0]] + UnescapeAll(s[1..], esc)
  {}

  // ----- Quoting -----

  lemma {:induction false} ReprSnoc(s: string, c: char)
    ensures ReprBody(s + [c]) == ReprBody(s) + ReprChar(c)
  {
    hide ReprChar;
    if s == "" {
      assert s + [c] == [c] && [c][1..] == "";
      assert ReprBody([c]) == ReprChar(c) + ReprBody("");
    } else {
      ReprSnoc(s[1..], c);
      assert (s + [c])[1..] == s[1..] + [c];
    }
  }

  lemma {:induction false} ReprPrefix(s: string, x: nat)
    requires x < |s|
    ensures ReprBody(s[..x + 1]) == ReprBody(s[..x]) + ReprChar(s[x])
    ensures |ReprBody(s[..x + 1])| <= |ReprBody(s)|
    decreases |s| - x
  {
    hide ReprBody, ReprChar;
    ReprSnoc(s[..x], s[x]);
    assert s[..x] + [s[x]] == s[..x + 1];
    if x + 1 == |s| {
      assert s[..x + 1] == s;
    } else {
      ReprPrefix(s, x + 1);
      assert s[..x + 2] == s[..x + 1] + [s[x + 1]];
      ReprSnoc(s[..x + 1], s[x + 1]);
    }
  }

  /** The sizing pass of `repr_string_alloc`. */
  method SizeRepr(s: string) returns (nl: nat)
    ensures nl == |ReprBody(s)|
  {
    hide ReprBody;
    nl := 0;
    NoRepr();
    assert s[..0] == "";
    for x := 0 to |s|
      invariant nl == |ReprBody(s[..x])|
    {
      ReprPrefix(s, x);
      if IsPrint(s[x]) && s[x] != '"' && s[x] != '\\' {
        nl := nl + 1;
      } else if s[x] == '\n' || s[x] == '\t' || s[x] == '\r' || s[x] == '"' || s[x] == '\\' {
        nl := nl + 2;
      } else {
        nl := nl + 4;
      }
    }
    assert s[..|s|] == s;
  }

  lemma NoRepr()
    ensures ReprBody("") == ""
  {}

  /**
   * `repr_string_alloc`: the buffer sized by the first pass holds the quoted text and its NUL,
   * and nothing is left over.
   */
  method ReprAlloc(s: string) returns (rs: array<char>)
    ensures fresh(rs)
    ensures rs.Length == |Repr(s)| + 1 && rs[..rs.Length - 1] == Repr(s) && rs[rs.Length - 1] == '\0'
  {
    hide ReprBody, ReprChar;
    var nl := SizeRepr(s);
    rs := new char[nl + 3](_ => '\0');
    rs[0] := '"';
    var i := 1;
    NoRepr();
    assert s[..0] == "" && rs[..1] == "\"";
    for x := 0 to |s|
      invariant i == 1 + |ReprBody(s[..x])| <= nl + 1
      invariant rs[..i] == "\"" + ReprBody(s[..x])
    {
      ReprPrefix(s, x);
      ghost var done := rs[..i];
      i := PutChars(rs, i, ReprChar(s[x]));
      assert rs[..i] == done + ReprChar(s[x]);
    }
    assert s[..|s|] == s;
    rs[i] := '"';
    assert rs[..i + 1] == Repr(s);
    rs[i + 1] := '\0';
  }

  method PutChars(rs: array<char>, at: nat, chars: string) returns (i: nat)
    requires at + |chars| <= rs.Length
    modifies rs
    ensures i == at + |chars| && rs[at..i] == chars
    ensures forall k :: 0 <= k < rs.Length && !(at <= k < i) ==> rs[k] == old(rs[k])
  {
    i := at;
    while i < at + |chars|
      invariant at <= i <= at + |chars|
      invariant forall k :: 0 <= k < rs.Length ==> rs[k] == if at <= k < i then chars[k - at] else old(rs[k])
    {
      rs[i] := chars[i - at];
      i := i + 1;
    }
  }
}
