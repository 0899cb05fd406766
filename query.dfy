/**
 * The handshake query parser: `a=b&c=d` becomes a map, following the semantics of
 * Java's `String.split` with a one-character separator.
 */
module Query {
  import opened ChatTypes

  /** All maximal pieces of `s` between occurrences of `sep` (empty pieces included). */
  function SplitAll(s: string, sep: char): (r: seq<string>)
    ensures |r| >= 1
    ensures forall i :: 0 <= i < |r| ==> sep !in r[i]
  {
    if s == [] then [[]]
    else
      var rest := SplitAll(s[1..], sep);
      if s[0] == sep then [[]] + rest
      else [[s[0]] + rest[0]] + rest[1..]
  }

  /** Glues pieces back together with `sep` between consecutive pieces. */
  function Join(parts: seq<string>, sep: char): string
    requires |parts| >= 1
  {
    if |parts| == 1 then parts[0]
    else parts[0] + [sep] + Join(parts[1..], sep)
  }

  /** Splitting loses nothing: joining the pieces gives back the input. */
  lemma {:induction false} JoinSplitAll(s: string, sep: char)
    ensures Join(SplitAll(s, sep), sep) == s
  {
    if s != [] {
      JoinSplitAll(s[1..], sep);
      var rest := SplitAll(s[1..], sep);
      if s[0] != sep {
        if |rest| == 1 {
          assert s == [s[0]] + s[1..];
        } else {
          calc {
            Join(SplitAll(s, sep), sep);
            ([s[0]] + rest[0]) + [sep] + Join(rest[1..], sep);
            [s[0]] + (rest[0] + [sep] + Join(rest[1..], sep));
            [s[0]] + Join(rest, sep);
            s;
          }
        }
      } else {
        assert s == [sep] + s[1..];
      }
    }
  }

  /** Pieces free of `sep` are recovered exactly from their join. */
  lemma {:induction false} SplitAllJoin(parts: seq<string>, sep: char)
    requires |parts| >= 1
    requires forall i :: 0 <= i < |parts| ==> sep !in parts[i]
    ensures SplitAll(Join(parts, sep), sep) == parts
  {
    if |parts| == 1 {
      SplitAllNoSep(parts[0], sep);
    } else {
      SplitAllJoin(parts[1..], sep);
      SplitAllPrefix(parts[0], Join(parts[1..], sep), sep);
      assert Join(parts, sep) == parts[0] + ([sep] + Join(parts[1..], sep));
    }
  }

  lemma {:induction false} SplitAllNoSep(s: string, sep: char)
    requires sep !in s
    ensures SplitAll(s, sep) == [s]
  {
    if s != [] {
      SplitAllNoSep(s[1..], sep);
      assert s == [s[0]] + s[1..];
    }
  }

  /** A separator-free prefix `p` followed by `sep` becomes the first piece on its own. */
  lemma {:induction false} SplitAllPrefix(p: string, t: string, sep: char)
    requires sep !in p
    ensures SplitAll(p + [sep] + t, sep) == [p] + SplitAll(t, sep)
  {
    if p == [] {
      assert p + [sep] + t == [sep] + t;
      assert ([sep] + t)[1..] == t;
    } else {
      SplitAllPrefix(p[1..], t, sep);
      assert (p + [sep] + t)[1..] == p[1..] + [sep] + t;
      assert p == [p[0]] + p[1..];
    }
  }

  /** Drops the empty strings at the end of a split result, as `String.split(regex)` does. */
  function StripTrailingEmpty(parts: seq<string>): (r: seq<string>)
    ensures r <= parts
    ensures r == [] || r[|r| - 1] != []
    ensures forall i :: |r| <= i < |parts| ==> parts[i] == []
  {
    if parts == [] then []
    else if parts[|parts| - 1] == [] then StripTrailingEmpty(parts[..|parts| - 1])
    else parts
  }

  /**
   * Java's `s.split(sep)` for a one-character, non-meta separator: a string without the
   * separator is its own single piece; otherwise the pieces are separator-free and trailing
   * empty pieces are gone.
   */
  function JavaSplit(s: string, sep: char): (r: seq<string>)
    ensures sep !in s ==> r == [s]
    ensures forall i :: 0 <= i < |r| ==> sep !in r[i]
    ensures sep in s ==> r == [] || r[|r| - 1] != []
  {
    if sep !in s then [s] else StripTrailingEmpty(SplitAll(s, sep))
  }

  /**
   * The key/value kept from one `&`-piece, if its `=`-split has exactly two parts. A kept
   * binding has `=`-free key and value and a non-empty value.
   */
  function Binding(piece: string): (b: Option<(string, string)>)
    ensures b.Some? ==> '=' !in b.value.0 && '=' !in b.value.1 && b.value.1 != []
  {
    var kv := JavaSplit(piece, '=');
    if |kv| == 2 then Some((kv[0], kv[1])) else None
  }

  /** `k=v` with `=`-free key and value and a non-empty value is kept as the binding `k -> v`. */
  lemma {:induction false} BindingOfPair(k: string, v: string)
    requires '=' !in k && '=' !in v && v != []
    ensures Binding(k + "=" + v) == Some((k, v))
  {
    var p := k + "=" + v;
    assert p[|k|] == '=';
    SplitAllJoin([k, v], '=');
    assert Join([k, v], '=') == p;
  }

  /** The binding kept from each `&`-piece, in order. */
  function Bindings(pieces: seq<string>): (bs: seq<Option<(string, string)>>)
    ensures |bs| == |pieces|
    ensures forall i :: 0 <= i < |pieces| ==> bs[i] == Binding(pieces[i])
  {
    seq(|pieces|, i requires 0 <= i < |pieces| => Binding(pieces[i]))
  }

  predicate BindsKey(b: Option<(string, string)>, k: string) {
    b.Some? && b.value.0 == k
  }

  /**
   * `m` holds exactly the keys bound by `bs[..n]`, each with the value of its LAST binding
   * there: a later duplicate key overwrites an earlier one.
   */
  ghost predicate LastWins(bs: seq<Option<(string, string)>>, n: nat, m: map<string, string>)
    requires n <= |bs|
  {
    && (forall k :: k in m <==> exists i :: 0 <= i < n && BindsKey(bs[i], k))
    && (forall k :: k in m ==>
          exists i :: 0 <= i < n && bs[i] == Some((k, m[k]))
                      && forall j :: i < j < n ==> !BindsKey(bs[j], k))
  }

  /** The map built by putting the bindings of `bs[..n]` in order, later ones overwriting earlier ones. */
  function PutAll(bs: seq<Option<(string, string)>>, n: nat): map<string, string>
    requires n <= |bs|
  {
    if n == 0 then map[]
    else
      var m := PutAll(bs, n - 1);
      match bs[n - 1]
      case Some(kv) => m[kv.0 := kv.1]
      case None => m
  }

  /**
   * The parameters of a connection URI's query: empty when the URI has no query. Keys and
   * values never contain `=` or `&`, and values are never empty.
   */
  function QueryParams(query: Option<string>): (m: map<string, string>)
    ensures query.None? ==> m == map[]
    ensures forall k :: k in m ==> '=' !in k && '&' !in k && '=' !in m[k] && '&' !in m[k] && m[k] != []
  {
    match query
    case None => map[]
    case Some(q) =>
      var pieces := JavaSplit(q, '&');
      var bs := Bindings(pieces);
      var m := PutAll(bs, |bs|);
      PutAllLastWins(bs, |bs|);
      assert forall k :: k in m ==> '=' !in k && '&' !in k && '=' !in m[k] && '&' !in m[k] && m[k] != [] by {
        forall k | k in m
          ensures '=' !in k && '&' !in k && '=' !in m[k] && '&' !in m[k] && m[k] != []
        {
          var i :| 0 <= i < |bs| && bs[i] == Some((k, m[k]))
                   && forall j :: i < j < |bs| ==> !BindsKey(bs[j], k);
          assert Binding(pieces[i]) == Some((k, m[k]));
          PieceParts(pieces[i], '&');
        }
      }
      m
  }

  /** The two halves of a kept binding are taken from inside its piece. */
  lemma PieceParts(piece: string, sep: char)
    requires sep !in piece
    requires Binding(piece).Some?
    ensures sep !in Binding(piece).value.0 && sep !in Binding(piece).value.1
  {
    JavaSplitChars(piece, '=');
    var kv := JavaSplit(piece, '=');
    assert Binding(piece).value == (kv[0], kv[1]);
  }

  /** Splitting invents no characters: every piece is made of characters of the input. */
  lemma {:induction false} SplitAllChars(s: string, sep: char)
    ensures forall i, x :: 0 <= i < |SplitAll(s, sep)| && x in SplitAll(s, sep)[i] ==> x in s
  {
    if s != [] {
      SplitAllChars(s[1..], sep);
      var rest := SplitAll(s[1..], sep);
      var r := SplitAll(s, sep);
      assert forall y :: y in s[1..] ==> y in s;
      forall i, x | 0 <= i < |r| && x in r[i] ensures x in s {
        if s[0] == sep {
          assert r[i] == if i == 0 then [] else rest[i - 1];
        } else if i == 0 {
          assert r[0] == [s[0]] + rest[0];
          if x != s[0] { assert x in rest[0]; }
        } else {
          assert r[i] == rest[i];
        }
      }
    }
  }

  /** A Java split invents no characters either. */
  lemma JavaSplitChars(s: string, sep: char)
    ensures forall i, x :: 0 <= i < |JavaSplit(s, sep)| && x in JavaSplit(s, sep)[i] ==> x in s
  {
    if sep in s {
      SplitAllChars(s, sep);
      var all := SplitAll(s, sep);
      var r := JavaSplit(s, sep);
      assert r <= all;
      forall i | 0 <= i < |r| ensures r[i] == all[i] { }
    }
  }

  /** Putting the bindings in order leaves each key with its last binding, and only bound keys. */
  lemma {:induction false} PutAllLastWins(bs: seq<Option<(string, string)>>, n: nat)
    requires n <= |bs|
    ensures LastWins(bs, n, PutAll(bs, n))
  {
    if n > 0 {
      var m := PutAll(bs, n - 1);
      PutAllLastWins(bs, n - 1);
      LastWinsStep(bs, n - 1, m);
      if bs[n - 1].Some? {
        assert PutAll(bs, n) == m[bs[n - 1].value.0 := bs[n - 1].value.1];
      } else {
        assert PutAll(bs, n) == m;
      }
    }
  }

  /** `parseQuery`: splits on `&`, keeps the pieces whose `=`-split has exactly two parts. */
  method ParseQuery(query: Option<string>) returns (m: map<string, string>)
    ensures m == QueryParams(query)
    ensures query.None? ==> m == map[]
    ensures query.Some? ==>
      var bs := Bindings(JavaSplit(query.value, '&')); LastWins(bs, |bs|, m)
  {
    m := map[];
    if query.None? {
      return;
    }
    var pairs := JavaSplit(query.value, '&');
    ghost var bs := Bindings(pairs);
    var n := 0;
    while n < |pairs|
      invariant n <= |pairs|
      invariant m == PutAll(bs, n)
    {
      var kv := JavaSplit(pairs[n], '=');
      assert bs[n] == Binding(pairs[n]);
      if |kv| == 2 {
        m := m[kv[0] := kv[1]];
      }
      n := n + 1;
    }
    PutAllLastWins(bs, n);
  }

  /** One more piece: its binding, if any, overwrites the map entry for its key. */
  lemma LastWinsStep(bs: seq<Option<(string, string)>>, n: nat, m: map<string, string>)
    requires n < |bs| && LastWins(bs, n, m)
    ensures bs[n].None? ==> LastWins(bs, n + 1, m)
    ensures bs[n].Some? ==> LastWins(bs, n + 1, m[bs[n].value.0 := bs[n].value.1])
  {
    match bs[n]
    case None =>
      forall k | k in m
        ensures exists i :: 0 <= i < n + 1 && bs[i] == Some((k, m[k]))
                  && forall j :: i < j < n + 1 ==> !BindsKey(bs[j], k)
      {
        var i :| 0 <= i < n && bs[i] == Some((k, m[k]))
                 && forall j :: i < j < n ==> !BindsKey(bs[j], k);
        assert !BindsKey(bs[n], k);
      }
    case Some(kv) =>
      var m' := m[kv.0 := kv.1];
      forall k | k in m'
        ensures exists i :: 0 <= i < n + 1 && bs[i] == Some((k, m'[k]))
                  && forall j :: i < j < n + 1 ==> !BindsKey(bs[j], k)
      {
        if k == kv.0 {
          assert bs[n] == Some((k, m'[k]));
        } else {
          var i :| 0 <= i < n && bs[i] == Some((k, m[k]))
                   && forall j :: i < j < n ==> !BindsKey(bs[j], k);
          assert !BindsKey(bs[n], k);
        }
      }
      forall k | exists i :: 0 <= i < n + 1 && BindsKey(bs[i], k)
        ensures k in m'
      {
        var i :| 0 <= i < n + 1 && BindsKey(bs[i], k);
        if i < n { assert k in m; }
      }
  }

  /** Under LastWins, a binding with no later binding of the same key is the value in the map. */
  lemma LastBindingWins(bs: seq<Option<(string, string)>>, m: map<string, string>, j: nat, k: string, v: string)
    requires j < |bs| && LastWins(bs, |bs|, m)
    requires bs[j] == Some((k, v))
    requires forall j' :: j < j' < |bs| ==> !BindsKey(bs[j'], k)
    ensures k in m && m[k] == v
  {
    assert BindsKey(bs[j], k);
    var i :| 0 <= i < |bs| && bs[i] == Some((k, m[k]))
             && forall j' :: i < j' < |bs| ==> !BindsKey(bs[j'], k);
    assert BindsKey(bs[i], k);
    assert i == j;
  }

  /** A key no piece binds is absent from the map. */
  lemma UnboundKeyAbsent(bs: seq<Option<(string, string)>>, m: map<string, string>, k: string)
    requires LastWins(bs, |bs|, m)
    requires forall i :: 0 <= i < |bs| ==> !BindsKey(bs[i], k)
    ensures k !in m
  {
  }
}
