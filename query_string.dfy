/**
 * A reader of query strings: split at every `&`, skip empty pieces, and split
 * each piece at its first `=` into a name and a value (a piece without `=` is a
 * name with the empty value). Percent-decoding and `+` for space are not part
 * of this reader.
 */
module QueryString {
  import opened SearchParams

  /** The pieces of `s` between the occurrences of `sep`. */
  function Split(s: string, sep: char): (r: seq<string>)
    ensures |r| >= 1
  {
    if s == [] then [[]]
    else if s[0] == sep then [[]] + Split(s[1..], sep)
    else
      var rest := Split(s[1..], sep);
      [[s[0]] + rest[0]] + rest[1..]
  }

  /** `s` split at its first `=`. */
  function SplitPair(s: string): (string, string)
  {
    if s == [] then ([], [])
    else if s[0] == '=' then ([], s[1..])
    else
      var p := SplitPair(s[1..]);
      ([s[0]] + p.0, p.1)
  }

  function ParsePieces(pieces: seq<string>): Entries
  {
    if pieces == [] then []
    else (if pieces[0] == [] then [] else [SplitPair(pieces[0])]) + ParsePieces(pieces[1..])
  }

  /** `name=value`. */
  function EncodePair(name: string, value: string): string
  {
    name + "=" + value
  }

  /** The entries written as a query string, joined with `&`. */
  function Encode(e: Entries): string
  {
    if e == [] then []
    else if |e| == 1 then EncodePair(e[0].0, e[0].1)
    else EncodePair(e[0].0, e[0].1) + "&" + Encode(e[1..])
  }

  /** The entries a query string stands for. */
  function Parse(q: string): Entries
  {
    ParsePieces(Split(q, '&'))
  }

  lemma {:induction false} SplitWithoutSep(s: string, sep: char)
    requires sep !in s
    ensures Split(s, sep) == [s]
  {
    if s != [] {
      assert sep !in s[1..] by {
        forall i | 0 <= i < |s[1..]| ensures s[1..][i] != sep {
          assert s[1..][i] == s[i + 1];
        }
      }
      SplitWithoutSep(s[1..], sep);
      assert [s[0]] + s[1..] == s;
    }
  }

  /** Splitting a concatenation at a separator between the two parts. */
  lemma {:induction false} SplitConcat(a: string, b: string, sep: char)
    ensures Split(a + [sep] + b, sep) == Split(a, sep) + Split(b, sep)
  {
    if a == [] {
      assert a + [sep] + b == [sep] + b;
      assert ([sep] + b)[1..] == b;
    } else {
      assert (a + [sep] + b)[1..] == a[1..] + [sep] + b;
      SplitConcat(a[1..], b, sep);
    }
  }

  /** A name without `=` splits off from its value at the first `=`. */
  lemma {:induction false} SplitPairAt(name: string, value: string)
    requires '=' !in name
    ensures SplitPair(name + "=" + value) == (name, value)
  {
    if name == [] {
      assert name + "=" + value == "=" + value;
      assert ("=" + value)[1..] == value;
    } else {
      assert '=' !in name[1..] by {
        forall i | 0 <= i < |name[1..]| ensures name[1..][i] != '=' {
          assert name[1..][i] == name[i + 1];
        }
      }
      assert (name + "=" + value)[1..] == name[1..] + "=" + value;
      SplitPairAt(name[1..], value);
      assert [name[0]] + name[1..] == name;
    }
  }

  lemma {:induction false} ParsePiecesAppend(a: seq<string>, b: seq<string>)
    ensures ParsePieces(a + b) == ParsePieces(a) + ParsePieces(b)
  {
    if a == [] {
      assert a + b == b;
    } else {
      assert (a + b)[1..] == a[1..] + b;
      ParsePiecesAppend(a[1..], b);
    }
  }

  /** Reading a concatenation at an `&` reads the two parts. */
  lemma ParseConcat(a: string, b: string)
    ensures Parse(a + "&" + b) == Parse(a) + Parse(b)
  {
    SplitConcat(a, b, '&');
    ParsePiecesAppend(Split(a, '&'), Split(b, '&'));
  }

  /** A single `name=value` reads as that one entry. */
  lemma ParseEncodePair(name: string, value: string)
    requires '=' !in name && '&' !in name && '&' !in value
    ensures Parse(EncodePair(name, value)) == [(name, value)]
  {
    var piece := EncodePair(name, value);
    assert '&' !in piece;
    SplitWithoutSep(piece, '&');
    SplitPairAt(name, value);
    assert piece != [] by { assert piece[|name|] == '='; }
    assert ParsePieces([piece]) == [SplitPair(piece)] + ParsePieces([]);
  }

  /** A piece without `=` is a name with the empty value. */
  lemma {:induction false} SplitPairWithoutEquals(s: string)
    requires '=' !in s
    ensures SplitPair(s) == (s, [])
  {
    if s != [] {
      assert '=' !in s[1..] by {
        forall i | 0 <= i < |s[1..]| ensures s[1..][i] != '=' {
          assert s[1..][i] == s[i + 1];
        }
      }
      SplitPairWithoutEquals(s[1..]);
      assert [s[0]] + s[1..] == s;
    }
  }

  /** A non-empty piece with neither `&` nor `=` reads as a name with the
      empty value. */
  lemma ParseName(s: string)
    requires s != [] && '&' !in s && '=' !in s
    ensures Parse(s) == [(s, [])]
  {
    SplitWithoutSep(s, '&');
    SplitPairWithoutEquals(s);
    assert ParsePieces([s]) == [SplitPair(s)] + ParsePieces([]);
  }

  /** No name holds `=` or `&` and no value holds `&`. */
  predicate Plain(e: Entries)
  {
    forall i :: 0 <= i < |e| ==> '=' !in e[i].0 && '&' !in e[i].0 && '&' !in e[i].1
  }

  /** Writing plain entries and reading them back gives the same entries. */
  lemma {:induction false} ParseEncode(e: Entries)
    requires Plain(e)
    ensures Parse(Encode(e)) == e
  {
    if e == [] {
      assert Split([], '&') == [[]];
    } else {
      ParseEncodePair(e[0].0, e[0].1);
      if |e| > 1 {
        assert Plain(e[1..]) by {
          forall i | 0 <= i < |e[1..]|
            ensures '=' !in e[1..][i].0 && '&' !in e[1..][i].0 && '&' !in e[1..][i].1
          {
            assert e[1..][i] == e[i + 1];
          }
        }
        ParseEncode(e[1..]);
        ParseConcat(EncodePair(e[0].0, e[0].1), Encode(e[1..]));
        assert [e[0]] + e[1..] == e;
      }
    }
  }
}
