/** Python's `str()` of a field value, and `int()` of its decimal text. */
module Show {
  import opened Values
  import opened Text

  function DigitChar(d: nat): (c: char)
    requires d < 10
    ensures IsDigit(c)
  {
    ('0' as int + d) as char
  }

  /** The decimal digits of `n`, most significant first, with no leading zero. */
  function NatStr(n: nat): (r: string)
    ensures AllDigits(r)
    ensures |r| > 1 ==> r[0] != '0'
    decreases n
  {
    if n < 10 then [DigitChar(n)] else NatStr(n / 10) + [DigitChar(n % 10)]
  }

  /** The number a string of decimal digits denotes. */
  function DigitsValue(s: string): nat
    requires forall i :: 0 <= i < |s| ==> IsDigit(s[i])
    decreases |s|
  {
    if s == [] then 0
    else
      var last := s[|s| - 1];
      assert IsDigit(last);
      DigitsValue(s[..|s| - 1]) * 10 + (last as int - '0' as int)
  }

  /** Reading back the decimal text gives the number again. */
  lemma {:induction false} NatStrRoundTrip(n: nat)
    ensures DigitsValue(NatStr(n)) == n
    decreases n
  {
    if n >= 10 {
      NatStrRoundTrip(n / 10);
      var s := NatStr(n);
      assert s[..|s| - 1] == NatStr(n / 10);
    }
  }

  /** `str(i)` for an int. */
  function IntStr(i: int): (r: string)
    ensures r != []
  {
    if i < 0 then "-" + NatStr(-i) else NatStr(i)
  }

  /** `int(s)` on the text `str(i)` produces: an optional minus and digits. */
  function IntOf(s: string): Option<int>
  {
    if s != [] && s[0] == '-' && AllDigits(s[1..]) then Some(-(DigitsValue(s[1..]) as int))
    else if AllDigits(s) then Some(DigitsValue(s))
    else None
  }

  lemma IntStrRoundTrip(i: int)
    ensures IntOf(IntStr(i)) == Some(i)
  {
    if i < 0 {
      NatStrRoundTrip(-i);
      assert IntStr(i)[1..] == NatStr(-i);
    } else {
      NatStrRoundTrip(i);
    }
  }

  /** `str(v)`: a string is itself, everything else its `repr`. */
  function Str(v: Value): string
  {
    if v.VStr? then v.s else Repr(v)
  }

  /** The quote `repr` puts around a string: `"` when the string holds a `'`
      and no `"`, otherwise `'`. */
  function QuoteOf(s: string): char
  {
    if '\'' in s && '"' !in s then '"' else '\''
  }

  /** A control character: below the space, or DEL. */
  predicate IsControl(c: char)
  {
    c as int < 32 || c as int == 127
  }

  function HexDigit(d: nat): char
    requires d < 16
  {
    "0123456789abcdef"[d]
  }

  /** How `repr` writes one character inside quotes `quote`: the quote and the
      backslash escaped with a backslash, tab, newline and carriage return by
      their letters, other control characters as `\xhh`. */
  function EscapeChar(c: char, quote: char): string
  {
    if c == quote || c == '\\' then ['\\', c]
    else if c == '\t' then "\\t"
    else if c == '\n' then "\\n"
    else if c == '\r' then "\\r"
    else if IsControl(c) then "\\x" + [HexDigit(c as int / 16), HexDigit(c as int % 16)]
    else [c]
  }

  function Escaped(s: string, quote: char): string
    decreases |s|
  {
    if s == [] then [] else Escaped(s[..|s| - 1], quote) + EscapeChar(s[|s| - 1], quote)
  }

  /** `repr(s)` of a string. */
  function ReprStr(s: string): string
  {
    var q := QuoteOf(s);
    [q] + Escaped(s, q) + [q]
  }

  /** A character `repr` writes as itself inside quotes `quote`. */
  predicate Plain(c: char, quote: char)
  {
    c != quote && c != '\\' && !IsControl(c)
  }

  lemma {:induction false} EscapedPlain(s: string, quote: char)
    requires forall i :: 0 <= i < |s| ==> Plain(s[i], quote)
    ensures Escaped(s, quote) == s
    decreases |s|
  {
    if s != [] {
      var n := |s| - 1;
      EscapedPlain(s[..n], quote);
      assert s == s[..n] + [s[n]];
    }
  }

  /** A string free of quotes, backslashes and control characters is shown
      between single quotes as it is. */
  lemma ReprStrPlain(s: string)
    requires '"' !in s && '\'' !in s && forall i :: 0 <= i < |s| ==> Plain(s[i], '\'')
    ensures ReprStr(s) == "'" + s + "'"
  {
    EscapedPlain(s, '\'');
  }

  /** A string holding a `'` but no `"`, backslash or control character is
      shown between double quotes as it is. */
  lemma ReprStrSwitchesQuotes(s: string)
    requires '\'' in s && forall i :: 0 <= i < |s| ==> Plain(s[i], '"')
    ensures ReprStr(s) == "\"" + s + "\""
  {
    assert '"' !in s by {
      forall i | 0 <= i < |s| ensures s[i] != '"' {
        assert Plain(s[i], '"');
      }
    }
    EscapedPlain(s, '"');
  }

  /** Every quote character written between the quotes is escaped, so the
      text cannot end early: this is what lets a string holding both quotes
      keep `'` around it. */
  lemma {:induction false} EscapedQuotes(s: string, quote: char)
    requires quote == '\'' || quote == '"'
    ensures forall i :: 0 <= i < |Escaped(s, quote)| && Escaped(s, quote)[i] == quote ==>
      i > 0 && Escaped(s, quote)[i - 1] == '\\'
    decreases |s|
  {
    if s != [] {
      var n := |s| - 1;
      EscapedQuotes(s[..n], quote);
      var a, b := Escaped(s[..n], quote), EscapeChar(s[n], quote);
      var e := Escaped(s, quote);
      assert e == a + b;
      forall i | 0 <= i < |e| && e[i] == quote
        ensures i > 0 && e[i - 1] == '\\'
      {
        if i < |a| {
          assert a[i] == quote;
        } else {
          var j := i - |a|;
          assert b[j] == quote;
          if s[n] == quote {
            assert b == ['\\', quote] && j == 1;
          } else {
            assert false;
          }
        }
      }
    }
  }

  /** `repr(v)`. Strings are quoted and escaped as Python does for ASCII
      text; a dict lists its keys in ascending order. */
  function Repr(v: Value): string
    decreases v, 2, 0
  {
    match v
    case VNone => "None"
    case VBool(b) => if b then "True" else "False"
    case VInt(i) => IntStr(i)
    case VStr(s) => ReprStr(s)
    case VList(items) => "[" + Join(ReprItems(v, items), ", ") + "]"
    case VTuple(items) => "(" + Join(ReprItems(v, items), ", ") + (if |items| == 1 then "," else "") + ")"
    case VDict(m) => "{" + Join(ReprEntries(v, SortedKeys(m.Keys)), ", ") + "}"
  }

  function ReprItems(parent: Value, items: seq<Value>): (r: seq<string>)
    requires (parent.VList? || parent.VTuple?) && items <= parent.items
    ensures |r| == |items|
    decreases parent, 1, |items|
  {
    if items == [] then []
    else
      var n := |items| - 1;
      assert items[n] in parent.items;
      ReprItems(parent, items[..n]) + [Repr(items[n])]
  }

  function ReprEntries(parent: Value, keys: seq<string>): seq<string>
    requires parent.VDict?
    decreases parent, 1, |keys|
  {
    if keys == [] then []
    else
      var rest := ReprEntries(parent, keys[1..]);
      if keys[0] in parent.entries then [ReprStr(keys[0]) + ": " + Repr(parent.entries[keys[0]])] + rest else rest
  }

  /** The least key of a non-empty set under `StrLe`. */
  function MinKey(keys: set<string>): (k: string)
    requires keys != {}
    ensures k in keys && forall k2 :: k2 in keys ==> StrLe(k, k2)
  {
    MinKeyExists(keys);
    StrLeAntisymmetricAll();
    var k :| k in keys && forall k2 :: k2 in keys ==> StrLe(k, k2);
    k
  }

  /** A set of keys in ascending order. */
  function SortedKeys(keys: set<string>): (r: seq<string>)
    ensures |r| == |keys|
    ensures forall k :: k in keys <==> k in r
    decreases |keys|
  {
    if keys == {} then []
    else
      var k := MinKey(keys);
      [k] + SortedKeys(keys - {k})
  }

  lemma {:induction false} MinKeyExists(keys: set<string>)
    requires keys != {}
    ensures exists k :: k in keys && forall k2 :: k2 in keys ==> StrLe(k, k2)
    decreases |keys|
  {
    var x :| x in keys;
    StrLeReflexive(x);
    var rest := keys - {x};
    if rest != {} {
      MinKeyExists(rest);
      var m :| m in rest && forall k2 :: k2 in rest ==> StrLe(m, k2);
      StrLeTotal(x, m);
      if StrLe(x, m) {
        forall k2 | k2 in keys
          ensures StrLe(x, k2)
        {
          if k2 != x {
            StrLeTransitive(x, m, k2);
          }
        }
      } else {
        assert forall k2 :: k2 in keys ==> StrLe(m, k2);
      }
    } else {
      assert keys == {x};
    }
  }

  lemma {:induction false} StrLeReflexive(a: string)
    ensures StrLe(a, a)
    decreases |a|
  {
    if a != [] {
      StrLeReflexive(a[1..]);
    }
  }

  lemma {:induction false} StrLeAntisymmetric(a: string, b: string)
    requires StrLe(a, b) && StrLe(b, a)
    ensures a == b
    decreases |a|
  {
    if a != [] && b != [] {
      StrLeAntisymmetric(a[1..], b[1..]);
      assert a == [a[0]] + a[1..];
      assert b == [b[0]] + b[1..];
    }
  }

  lemma StrLeAntisymmetricAll()
    ensures forall a, b :: StrLe(a, b) && StrLe(b, a) ==> a == b
  {
    forall a, b | StrLe(a, b) && StrLe(b, a)
      ensures a == b
    {
      StrLeAntisymmetric(a, b);
    }
  }
}
