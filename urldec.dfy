/** Percent-decoding as in section 2.1 of RFC 3986, with the HTML form rule
    that `+` stands for a space: `hex_to_decimal` and `urldecode`. */
module UrlDec {
  import opened Posix

  const LowerHex: string := "0123456789abcdef"
  const UpperHex: string := "0123456789ABCDEF"

  predicate IsHexDigit(c: char)
  {
    c in LowerHex || c in UpperHex
  }

  /** `hex_to_decimal`: the value of a hexadecimal digit in either case, and
      -1 for any other character. */
  function HexToDecimal(c: char): (r: int)
    ensures -1 <= r < 16
    ensures r == -1 <==> !IsHexDigit(c)
    ensures r != -1 ==> LowerHex[r] == c || UpperHex[r] == c
  {
    if '0' <= c <= '9' then c as int - '0' as int
    else if 'a' <= c <= 'f' then c as int - 'a' as int + 10
    else if 'A' <= c <= 'F' then c as int - 'A' as int + 10
    else -1
  }

  /** The byte `%XY` stands for: `(high << 4) | low`. */
  function EscapedByte(high: int, low: int): char
    requires 0 <= high < 16 && 0 <= low < 16
  {
    (high * 16 + low) as char
  }

  /** Prefix a successful result; failure stays failure. */
  function Then(prefix: string, r: Option<string>): Option<string>
  {
    match r
    case None => None
    case Some(v) => Some(prefix + v)
  }

  /** What `urldecode` produces for `s`, or None where it returns -1: a `%`
      needs two more bytes after it and both must be hex digits; `+` becomes a
      space; anything else is copied. Each step consumes at least one input
      byte and produces exactly one, so the output is never longer. */
  function Decoded(s: string): (r: Option<string>)
    ensures r.Some? ==> |r.value| <= |s|
  {
    if s == [] then Some([])
    else if s[0] == '%' then
      if 2 < |s| then
        var high := HexToDecimal(s[1]);
        var low := HexToDecimal(s[2]);
        if high == -1 || low == -1 then None
        else Then([EscapedByte(high, low)], Decoded(s[3..]))
      else None
    else if s[0] == '+' then Then([' '], Decoded(s[1..]))
    else Then([s[0]], Decoded(s[1..]))
  }

  /** One decoding step on a byte that is neither `%` nor `+`: it is copied. */
  lemma DecodedPlain(c: char, s: string)
    requires c != '%' && c != '+'
    ensures Decoded([c] + s) == Then([c], Decoded(s))
  {
    assert ([c] + s)[1..] == s;
  }

  /** One decoding step on `+`: a space. */
  lemma DecodedPlus(s: string)
    ensures Decoded("+" + s) == Then(" ", Decoded(s))
  {
    assert ("+" + s)[1..] == s;
  }

  /** One decoding step on `%` and two hex digits: the byte they spell. */
  lemma DecodedEscape(high: char, low: char, s: string)
    requires IsHexDigit(high) && IsHexDigit(low)
    ensures Decoded(['%', high, low] + s) ==
      Then([EscapedByte(HexToDecimal(high), HexToDecimal(low))], Decoded(s))
  {
    var e := ['%', high, low] + s;
    assert e[1] == high && e[2] == low && e[3..] == s;
  }

  /** Before the loop nothing is written and the whole input is left. */
  lemma DecodingStarts(input: string)
    ensures Decoded(input) == Then([], Decoded(input[0..]))
  {
    assert input[0..] == input;
    if Decoded(input).Some? {
      assert [] + Decoded(input).value == Decoded(input).value;
    }
  }

  /** After the loop nothing is left, so the bytes written are the whole
      decoding. */
  lemma DecodingEnds(done: string, rest: string)
    requires rest == []
    ensures Then(done, Decoded(rest)) == Some(done)
  {
    assert done + [] == done;
  }

  /** A `%` at `input[i]` that is not followed by two hex digits makes the
      whole rest of the input fail. */
  lemma DecodedBadEscape(input: string, i: nat)
    requires i < |input| && input[i] == '%'
    requires i + 2 >= |input| || !IsHexDigit(input[i + 1]) || !IsHexDigit(input[i + 2])
    ensures Decoded(input[i..]) == None
  {
    var rest := input[i..];
    assert rest[0] == '%';
    if i + 2 < |input| {
      assert rest[1] == input[i + 1] && rest[2] == input[i + 2];
    }
  }

  /** `a+b%20c` decodes to `a b c`: `+` and `%20` both give a space. */
  lemma DecodedSpaces()
    ensures Decoded("a+b%20c") == Some("a b c")
  {
    assert Decoded("") == Some("");
    DecodedPlain('c', "");
    assert ['c'] + "" == "c" && ['c'] + "" == "c";
    assert Decoded("c") == Some("c");
    assert HexToDecimal('2') == 2 && HexToDecimal('0') == 0 && EscapedByte(2, 0) == ' ';
    DecodedEscape('2', '0', "c");
    assert ['%', '2', '0'] + "c" == "%20c" && [' '] + "c" == " c";
    assert Decoded("%20c") == Some(" c");
    DecodedPlain('b', "%20c");
    assert ['b'] + "%20c" == "b%20c" && ['b'] + " c" == "b c";
    assert Decoded("b%20c") == Some("b c");
    DecodedPlus("b%20c");
    assert "+" + "b%20c" == "+b%20c" && " " + "b c" == " b c";
    assert Decoded("+b%20c") == Some(" b c");
    DecodedPlain('a', "+b%20c");
    assert ['a'] + "+b%20c" == "a+b%20c" && ['a'] + " b c" == "a b c";
  }

  /** A `%` cut short or followed by a non-hex character fails. */
  lemma DecodedFailures()
    ensures Decoded("%") == None && Decoded("%2") == None
    ensures Decoded("%2g") == None && Decoded("%g2") == None
    ensures Decoded("ab%") == None
  {
    assert HexToDecimal('g') == -1;
    assert Decoded("%") == None by { assert "%"[0] == '%'; }
    assert Decoded("%2") == None by { assert "%2"[0] == '%'; }
    assert Decoded("%2g") == None by { assert "%2g"[0] == '%' && "%2g"[2] == 'g'; }
    assert Decoded("%g2") == None by { assert "%g2"[0] == '%' && "%g2"[1] == 'g'; }
    assert Decoded("ab%") == None by {
      assert "ab%"[0] == 'a' && "ab%"[1..] == "b%";
      assert "b%"[0] == 'b' && "b%"[1..] == "%" && "%"[0] == '%';
    }
  }

  /** A form encoder that `urldecode` inverts: space becomes `+`, and `%` and
      `+` themselves are escaped. */
  function Encoded(s: string): string
  {
    if s == [] then []
    else
      (if s[0] == '%' then "%25" else if s[0] == '+' then "%2B" else if s[0] == ' ' then "+" else [s[0]])
      + Encoded(s[1..])
  }

  /** Decoding undoes encoding, for every string. */
  lemma {:induction false} DecodeEncoded(s: string)
    ensures Decoded(Encoded(s)) == Some(s)
  {
    if s != [] {
      DecodeEncoded(s[1..]);
      var e := Encoded(s);
      var tail := Encoded(s[1..]);
      if s[0] == '%' {
        assert e == "%25" + tail;
        assert e[3..] == tail;
        assert HexToDecimal('2') == 2 && HexToDecimal('5') == 5;
      } else if s[0] == '+' {
        assert e == "%2B" + tail;
        assert e[3..] == tail;
        assert HexToDecimal('2') == 2 && HexToDecimal('B') == 11;
      } else {
        assert e == [e[0]] + tail;
        assert e[1..] == tail;
      }
      assert s == [s[0]] + s[1..];
    }
  }

  lemma ThenThen(p: string, q: string, r: Option<string>)
    ensures Then(p, Then(q, r)) == Then(p + q, r)
  {
    if r.Some? {
      assert p + (q + r.value) == (p + q) + r.value;
    }
  }

  /** The body of `urldecode`'s loop at read cursor `i`: the byte to emit
      and how many input bytes it consumes, or failure on a `%` that is not
      followed by two hex digits. Failure means the whole rest fails;
      success means the rest decodes to `b` followed by the decoding of what
      is left. */
  method DecodeStep(input: string, i: nat) returns (ok: bool, b: char, step: nat)
    requires i < |input|
    ensures !ok ==> Decoded(input[i..]) == None
    ensures ok ==> (step == 1 || step == 3) && i + step <= |input|
    ensures ok ==> Decoded(input[i..]) == Then([b], Decoded(input[i + step..]))
  {
    ghost var rest := input[i..];
    if input[i] == '%' {
      if i + 2 < |input| {
        var high := HexToDecimal(input[i + 1]);
        var low := HexToDecimal(input[i + 2]);
        if high == -1 || low == -1 {
          DecodedBadEscape(input, i);
          return false, '\0', 0;
        }
        assert rest == ['%', input[i + 1], input[i + 2]] + input[i + 3..];
        DecodedEscape(input[i + 1], input[i + 2], input[i + 3..]);
        return true, EscapedByte(high, low), 3;
      } else {
        DecodedBadEscape(input, i);
        return false, '\0', 0;
      }
    } else if input[i] == '+' {
      assert rest == "+" + input[i + 1..];
      DecodedPlus(input[i + 1..]);
      return true, ' ', 1;
    } else {
      assert rest == [input[i]] + input[i + 1..];
      DecodedPlain(input[i], input[i + 1..]);
      return true, input[i], 1;
    }
  }

  /** `urldecode(in, inlen, out, outlen)`: one pass with a read cursor `i`
      and a write cursor `j` that never overtakes it, so the `strlen + 1`
      bytes the caller allocates hold the output and its NUL. On success the
      result is 0, `*outlen` is the output length and the output is
      NUL-terminated; on failure the result is -1 and `*outlen` keeps its
      value. */
  method UrlDecode(input: string, out: array<char>, outlenIn: nat) returns (rc: int, outlen: nat)
    requires |input| + 1 <= out.Length
    modifies out
    ensures rc == 0 <==> Decoded(input).Some?
    ensures rc != 0 ==> rc == -1 && outlen == outlenIn
    ensures rc == 0 ==> outlen <= |input| && out[..outlen] == Decoded(input).value && out[outlen] == '\0'
  {
    var i := 0;
    var j := 0;
    ghost var done: string := [];
    DecodingStarts(input);
    while i < |input|
      invariant 0 <= j <= i <= |input|
      invariant |done| == j && out[..j] == done
      invariant Decoded(input) == Then(done, Decoded(input[i..]))
    {
      var ok, b, step := DecodeStep(input, i);
      if !ok {
        return -1, outlenIn;
      }
      ThenThen(done, [b], Decoded(input[i + step..]));
      out[j] := b;
      assert out[..j + 1] == out[..j] + [b];
      done := done + [b];
      j, i := j + 1, i + step;
    }
    assert input[i..] == [];
    DecodingEnds(done, input[i..]);
    out[j] := '\0';
    return 0, j;
  }
}
