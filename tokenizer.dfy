/** `tokenize_path`: split a path on `/`, dropping empty segments, into an
    array sized by counting the separators first. */
module Tokenizer {

  /** A slot of the NULL-terminated `char **` array. */
  datatype Slot = Null | Tok(s: string)

  function Flush(cur: string): seq<string>
  {
    if cur == [] then [] else [cur]
  }

  /** `strtok(…, "/")` over the rest `p` of the path, with `cur` the part of
      the current token collected so far. */
  function Scan(p: string, cur: string): seq<string>
  {
    if p == [] then Flush(cur)
    else if p[0] == '/' then Flush(cur) + Scan(p[1..], [])
    else Scan(p[1..], cur + [p[0]])
  }

  /** The tokens of a path, in order. */
  function Tokens(path: string): seq<string>
  {
    Scan(path, [])
  }

  function Slashes(p: string): nat
  {
    multiset(p)['/']
  }

  /** Every token is a non-empty path component. */
  predicate Component(t: string)
  {
    t != [] && '/' !in t
  }

  lemma {:induction false} ScanComponents(p: string, cur: string)
    requires '/' !in cur
    ensures forall k :: 0 <= k < |Scan(p, cur)| ==> Component(Scan(p, cur)[k])
  {
    if p != [] {
      if p[0] == '/' {
        ScanComponents(p[1..], []);
      } else {
        ScanComponents(p[1..], cur + [p[0]]);
      }
    }
  }

  /** No token is empty and none holds a `/`. */
  lemma TokensAreComponents(path: string)
    ensures forall k :: 0 <= k < |Tokens(path)| ==> Component(Tokens(path)[k])
  {
    ScanComponents(path, []);
  }

  lemma {:induction false} ScanBound(p: string, cur: string)
    ensures |Scan(p, cur)| <= Slashes(p) + 1
  {
    if p != [] {
      assert p == [p[0]] + p[1..];
      if p[0] == '/' {
        ScanBound(p[1..], []);
      } else {
        ScanBound(p[1..], cur + [p[0]]);
      }
    }
  }

  /** At most one more token than separators, so the tokens and the closing
      NULL fit the `count + 2` slots `tokenize_path` allocates. */
  lemma TokenCountBound(path: string)
    ensures |Tokens(path)| <= Slashes(path) + 1
  {
    ScanBound(path, []);
  }

  lemma {:induction false} ScanSplit(a: string, b: string, cur: string)
    ensures Scan(a + "/" + b, cur) == Scan(a, cur) + Scan(b, [])
  {
    if a == [] {
      assert a + "/" + b == "/" + b;
    } else {
      assert (a + "/" + b)[1..] == a[1..] + "/" + b;
      if a[0] == '/' {
        ScanSplit(a[1..], b, []);
      } else {
        ScanSplit(a[1..], b, cur + [a[0]]);
      }
    }
  }

  /** Tokenizing distributes over a separator: the tokens of `a/b` are the
      tokens of `a` followed by the tokens of `b`. */
  lemma TokensSplit(a: string, b: string)
    ensures Tokens(a + "/" + b) == Tokens(a) + Tokens(b)
  {
    ScanSplit(a, b, []);
  }

  lemma {:induction false} ScanComponentText(s: string, cur: string)
    requires '/' !in s
    ensures Scan(s, cur) == Flush(cur + s)
  {
    if s != [] {
      assert cur + s == (cur + [s[0]]) + s[1..];
      ScanComponentText(s[1..], cur + [s[0]]);
    } else {
      assert cur + s == cur;
    }
  }

  /** A segment without separators is one token, or none when empty. With
      TokensSplit this pins Tokens down completely. */
  lemma TokensOfSegment(s: string)
    requires '/' !in s
    ensures Tokens(s) == Flush(s)
  {
    ScanComponentText(s, []);
    assert [] + s == s;
  }

  /** The canonical path of a token sequence: `/t0/t1/…`. */
  function Join(ts: seq<string>): string
  {
    if ts == [] then "" else "/" + ts[0] + Join(ts[1..])
  }

  /** Tokenizing the canonical path gives the components back. */
  lemma {:induction false} TokensOfJoin(ts: seq<string>)
    requires forall k :: 0 <= k < |ts| ==> Component(ts[k])
    ensures Tokens(Join(ts)) == ts
  {
    if ts != [] {
      var rest := ts[1..];
      TokensSplit("", ts[0] + Join(rest));
      assert "" + "/" + (ts[0] + Join(rest)) == Join(ts);
      TokensOfSegment(ts[0]);
      if rest == [] {
        assert ts[0] + Join(rest) == ts[0];
      } else {
        var tail := rest[0] + Join(rest[1..]);
        TokensSplit(ts[0], tail);
        assert ts[0] + Join(rest) == ts[0] + "/" + tail;
        TokensSplit("", tail);
        assert "" + "/" + tail == Join(rest);
        TokensOfJoin(rest);
      }
    }
  }

  lemma SlashesCons(c: char, s: string)
    ensures Slashes([c] + s) == (if c == '/' then 1 else 0) + Slashes(s)
  {
    assert multiset([c] + s) == multiset([c]) + multiset(s);
  }

  /** The first loop of `tokenize_path`: count the `/` characters. */
  method CountSlashes(path: string) returns (count: nat)
    ensures count == Slashes(path)
  {
    count := 0;
    var i := 0;
    while i < |path|
      invariant 0 <= i <= |path|
      invariant count + Slashes(path[i..]) == Slashes(path)
    {
      assert path[i..] == [path[i]] + path[i + 1..];
      SlashesCons(path[i], path[i + 1..]);
      if path[i] == '/' {
        count := count + 1;
      }
      i := i + 1;
    }
  }

  /** `tokenize_path`: count the separators, allocate `count + 2` slots, then
      copy each `strtok` token into the next slot and close with NULL. Every
      slot written lies inside the allocation. */
  method TokenizePath(path: string) returns (tokens: seq<string>)
    ensures tokens == Tokens(path)
    ensures |tokens| + 1 <= Slashes(path) + 2
  {
    var count := CountSlashes(path);
    TokenCountBound(path);
    var slots := new Slot[count + 2](_ => Null);
    var cur := "";
    tokens := [];
    var i := 0;
    while i < |path|
      invariant 0 <= i <= |path|
      invariant tokens + Scan(path[i..], cur) == Tokens(path)
      invariant |tokens| < slots.Length
      invariant forall k :: 0 <= k < |tokens| ==> slots[k] == Tok(tokens[k])
    {
      assert path[i..] == [path[i]] + path[i + 1..];
      if path[i] == '/' {
        assert Scan(path[i..], cur) == Flush(cur) + Scan(path[i + 1..], []);
        tokens := Emit(slots, tokens, cur, Tokens(path));
        cur := [];
      } else {
        assert Scan(path[i..], cur) == Scan(path[i + 1..], cur + [path[i]]);
        cur := cur + [path[i]];
      }
      i := i + 1;
    }
    assert path[i..] == [];
    tokens := Emit(slots, tokens, cur, Tokens(path));
    assert tokens == Tokens(path);
    slots[|tokens|] := Null;
  }

  /** One `tokens[index++] = strdup(token)`: a pending token, if any, goes
      into the next free slot. The tokens so far followed by the pending
      one are a prefix of `all`, which leaves room for the closing NULL. */
  method Emit(slots: array<Slot>, tokens: seq<string>, cur: string, ghost all: seq<string>) returns (next: seq<string>)
    requires |all| + 1 <= slots.Length && tokens + Flush(cur) <= all
    requires forall k :: 0 <= k < |tokens| ==> slots[k] == Tok(tokens[k])
    modifies slots
    ensures next == tokens + Flush(cur)
    ensures forall k :: 0 <= k < |next| ==> slots[k] == Tok(next[k])
  {
    next := tokens;
    if cur != [] {
      slots[|tokens|] := Tok(cur);
      next := tokens + [cur];
    }
  }
}
