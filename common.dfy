/** Shared vocabulary: failure-carrying results and the ASCII character classes that
    Python's str methods (isalpha, isspace, isdigit, upper) reduce to on ASCII text. */
module Common {

  datatype Option<+T> = None | Some(value: T)

  /** A Python call that either returns a value or raises an exception. */
  datatype Result<+T, +E> = Ok(value: T) | Err(error: E)

  /** A Python call that returns nothing or raises an exception. */
  datatype Outcome<+E> = Pass | Fail(error: E)

  /** Non-decreasing order: what both sorts of the lab promise about the list of numbers. */
  predicate Sorted(s: seq<int>) {
    forall i, j :: 0 <= i < j < |s| ==> s[i] <= s[j]
  }

  /** str.isalpha on one ASCII character. */
  predicate IsAlpha(c: char) {
    ('a' <= c <= 'z') || ('A' <= c <= 'Z')
  }

  /** str.isspace on one ASCII character: space, \t \n \v \f \r and the separators \x1c-\x1f. */
  predicate IsSpace(c: char) {
    c == ' ' || (9 <= c as int <= 13) || (28 <= c as int <= 31)
  }

  /** str.isdigit on one ASCII character. */
  predicate IsDigit(c: char) {
    '0' <= c <= '9'
  }

  /** str.upper on one ASCII character. */
  function Upper(c: char): (u: char)
    ensures IsAlpha(c) <==> IsAlpha(u)
    ensures 'a' <= c <= 'z' ==> u as int == c as int - 32
    ensures !('a' <= c <= 'z') ==> u == c
    ensures !('a' <= u <= 'z')
  {
    if 'a' <= c <= 'z' then (c as int - 32) as char else c
  }

  /** str.upper on an ASCII string. */
  function UpperStr(s: string): (u: string)
    ensures |u| == |s|
    ensures forall i :: 0 <= i < |s| ==> u[i] == Upper(s[i])
  {
    if s == [] then [] else [Upper(s[0])] + UpperStr(s[1..])
  }

  /** Python's str.join with a separator. */
  function Join(parts: seq<string>, sep: string): string {
    if |parts| == 0 then ""
    else if |parts| == 1 then parts[0]
    else parts[0] + sep + Join(parts[1..], sep)
  }

  /** The decimal digits of a natural number, as Python's str() writes them. */
  function NatToString(n: nat): (s: string)
    ensures |s| >= 1
    ensures forall i :: 0 <= i < |s| ==> IsDigit(s[i])
    decreases n
  {
    if n < 10 then [('0' as int + n) as char]
    else NatToString(n / 10) + [('0' as int + n % 10) as char]
  }

  /** Python's str() of an int (f"{weight}"). */
  function IntToString(n: int): string {
    if n < 0 then "-" + NatToString(-n) else NatToString(n)
  }

  /** The value of a string of decimal digits, as Python's int() reads it. */
  function DigitsValue(s: string): (v: nat)
    requires forall i :: 0 <= i < |s| ==> IsDigit(s[i])
  {
    if s == [] then 0
    else
      assert IsDigit(s[|s| - 1]);
      DigitsValue(s[..|s| - 1]) * 10 + (s[|s| - 1] as int - '0' as int)
  }

  /** sum(d.values()) of a dictionary from strings to ints. */
  ghost function TableWeight(m: map<string, int>): int
    decreases |m|
  {
    if |m| == 0 then 0
    else
      var k := AnyKey(m);
      m[k] + TableWeight(m - {k})
  }

  /** Some key of a non-empty dictionary. */
  ghost function AnyKey(m: map<string, int>): (k: string)
    requires |m| > 0
    ensures k in m
  {
    var k :| k in m; k
  }

  /** The sum does not depend on the order in which entries are added up. */
  lemma {:induction false} TableWeightRemove(m: map<string, int>, k: string)
    requires k in m
    ensures TableWeight(m) == m[k] + TableWeight(m - {k})
    decreases |m|
  {
    var j := AnyKey(m);
    if j != k {
      var mj, mk := m - {j}, m - {k};
      TableWeightRemove(mj, k);
      TableWeightRemove(mk, j);
      assert mj - {k} == mk - {j};
    }
  }

  /** Setting one entry changes the sum by the difference between the new and the old value. */
  lemma TableWeightUpdate(m: map<string, int>, k: string, v: int)
    ensures TableWeight(m[k := v]) == TableWeight(m) - (if k in m then m[k] else 0) + v
  {
    var m' := m[k := v];
    TableWeightRemove(m', k);
    if k in m {
      TableWeightRemove(m, k);
      RemoveUpdated(m, k, v);
    } else {
      RemoveUpdated(m, k, v);
    }
  }

  lemma RemoveUpdated(m: map<string, int>, k: string, v: int)
    ensures m[k := v] - {k} == m - {k}
    ensures k !in m ==> m - {k} == m
  {
  }
}
