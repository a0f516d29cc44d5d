/** Small value types and string helpers shared by the models of the
    visualizer (`app.js`) and the three simulators (`server2.py`,
    `server.py`, `fork_choice.py`/`ssf_engine.py`). */
module Common {

  /** Python `None` / JavaScript `null` next to a present value. */
  datatype Option<T> = None | Some(value: T)

  predicate IsDigit(c: char) {
    '0' <= c <= '9'
  }

  function DigitChar(d: nat): (c: char)
    requires d < 10
    ensures IsDigit(c) && c as int - '0' as int == d
  {
    ('0' as int + d) as char
  }

  /** Python `str(n)` (and a JavaScript template literal) for a natural number:
      decimal digits, most significant first, no leading zero. */
  function NatToString(n: nat): (s: string)
    ensures |s| >= 1
    ensures forall i :: 0 <= i < |s| ==> IsDigit(s[i])
    ensures s[0] == '0' ==> n == 0
  {
    if n < 10 then [DigitChar(n)] else NatToString(n / 10) + [DigitChar(n % 10)]
  }

  function DigitValue(c: char): (d: nat)
    requires IsDigit(c)
    ensures d < 10 && DigitChar(d) == c
  {
    c as int - '0' as int
  }

  /** Python `int(s)` on a string of decimal digits. */
  function ParseNat(s: string): nat
    requires forall i :: 0 <= i < |s| ==> IsDigit(s[i])
  {
    if s == [] then 0
    else ParseNat(s[..|s| - 1]) * 10 + DigitValue(s[|s| - 1])
  }

  /** `int(str(n)) == n`: reading back a printed slot number gives the slot. */
  lemma {:induction false} ParseNatToString(n: nat)
    ensures ParseNat(NatToString(n)) == n
  {
    var s := NatToString(n);
    if n >= 10 {
      assert s[..|s| - 1] == NatToString(n / 10);
      ParseNatToString(n / 10);
    }
  }

  /** `str` is injective on naturals, so a slot's printed key names only that slot. */
  lemma NatToStringInjective(a: nat, b: nat)
    requires NatToString(a) == NatToString(b)
    ensures a == b
  {
    ParseNatToString(a);
    ParseNatToString(b);
  }

  /** Index of the first colon in `s`, or `|s|` when there is none. */
  function ColonIndex(s: string): (k: nat)
    ensures k <= |s|
    ensures forall i :: 0 <= i < k ==> s[i] != ':'
    ensures k < |s| ==> s[k] == ':'
  {
    if s == [] || s[0] == ':' then 0 else 1 + ColonIndex(s[1..])
  }

  lemma {:induction false} ColonIndexOfJoin(x: string, y: string)
    requires forall i :: 0 <= i < |x| ==> x[i] != ':'
    ensures ColonIndex(x + ":" + y) == |x|
  {
    var s := x + ":" + y;
    if x != [] {
      assert s[1..] == x[1..] + ":" + y;
      ColonIndexOfJoin(x[1..], y);
    }
  }

  /** `x + ":" + y` splits back into `x` and `y` when `x` holds no colon. */
  lemma SplitAtColon(x: string, y: string, x': string, y': string)
    requires forall i :: 0 <= i < |x| ==> x[i] != ':'
    requires forall i :: 0 <= i < |x'| ==> x'[i] != ':'
    requires x + ":" + y == x' + ":" + y'
    ensures x == x' && y == y'
  {
    var s := x + ":" + y;
    ColonIndexOfJoin(x, y);
    ColonIndexOfJoin(x', y');
    assert x == s[..|x|] == x';
    assert y == s[|x| + 1..] == y';
  }

  function Max(a: int, b: int): (m: int)
    ensures m >= a && m >= b && (m == a || m == b)
  {
    if a >= b then a else b
  }

  /** Every set of integers that is not empty has a least element. */
  lemma {:induction false} MinExists(s: set<int>)
    requires s != {}
    ensures exists m :: m in s && forall k :: k in s ==> m <= k
  {
    assert (forall z :: z !in s) ==> s == {};
    var x :| x in s;
    if s == {x} {
      assert x in s && forall k :: k in s ==> x <= k;
    } else {
      var rest := s - {x};
      MinExists(rest);
      var m :| m in rest && forall k :: k in rest ==> m <= k;
      var r := if x < m then x else m;
      assert r in s && forall k :: k in s ==> r <= k by {
        forall k | k in s ensures r <= k {
          if k != x { assert k in rest; }
        }
      }
    }
  }

  /** Every set of integers that is not empty has a greatest element. */
  lemma {:induction false} MaxExists(s: set<int>)
    requires s != {}
    ensures exists m :: m in s && forall k :: k in s ==> k <= m
  {
    assert (forall z :: z !in s) ==> s == {};
    var x :| x in s;
    if s == {x} {
      assert x in s && forall k :: k in s ==> k <= x;
    } else {
      var rest := s - {x};
      MaxExists(rest);
      var m :| m in rest && forall k :: k in rest ==> k <= m;
      var r := if m < x then x else m;
      assert r in s && forall k :: k in s ==> k <= r by {
        forall k | k in s ensures k <= r {
          if k != x { assert k in rest; }
        }
      }
    }
  }


  lemma AppendAssoc<T>(a: seq<T>, b: seq<T>, c: seq<T>)
    ensures (a + b) + c == a + (b + c)
  {
  }

  /** No element occurs twice. */
  predicate Distinct<T(==)>(xs: seq<T>) {
    forall i, j :: 0 <= i < j < |xs| ==> xs[i] != xs[j]
  }

  predicate StrictlyIncreasing(ks: seq<int>) {
    forall i, j :: 0 <= i < j < |ks| ==> ks[i] < ks[j]
  }

  /** The least element of a set of integers that is not empty. */
  function MinOf(s: set<int>): (m: int)
    requires s != {}
    ensures m in s && forall k :: k in s ==> m <= k
  {
    MinExists(s);
    var m :| m in s && forall k :: k in s ==> m <= k;
    m
  }

  /** The elements of `keys` in ascending order: what JavaScript's
      `Object.keys(m).map(parseInt).sort((a, b) => a - b)` yields for a map with integer keys. */
  function Ascending(keys: set<int>): (ks: seq<int>)
    ensures StrictlyIncreasing(ks)
    ensures forall k :: k in ks <==> k in keys
    ensures |ks| == |keys|
    decreases |keys|
  {
    if keys == {} then []
    else
      var m := MinOf(keys);
      var rest := Ascending(keys - {m});
      assert forall k :: k in rest ==> m < k;
      [m] + rest
  }

  /** The last of the ascending keys is the greatest key. */
  lemma AscendingLast(keys: set<int>)
    requires keys != {}
    ensures var ks := Ascending(keys);
      |ks| > 0 && ks[|ks| - 1] in keys && forall k :: k in keys ==> k <= ks[|ks| - 1]
  {
    var ks := Ascending(keys);
    assert (forall z :: z !in keys) ==> keys == {};
    var x :| x in keys;
    assert x in ks;
    forall k | k in keys ensures k <= ks[|ks| - 1] {
      assert k in ks;
      var j :| 0 <= j < |ks| && ks[j] == k;
      if j < |ks| - 1 { assert ks[j] < ks[|ks| - 1]; }
    }
  }

  /** Multiplying by a positive factor keeps the sign of a real. */
  lemma MulSign(x: real, t: real)
    requires t > 0.0
    ensures x >= 0.0 <==> x * t >= 0.0
  {
    if x < 0.0 {
      assert (-x) * t > 0.0;
    }
  }
}
