/** Shared vocabulary of the stock-fetcher model: optional values, element
    attributes as the DOM reports them, and the decimal rendering JavaScript
    uses when a whole number is interpolated into a template literal. */
module Base {

  datatype Option<+T> = None | Some(value: T)

  /** An element's attribute list: name to value. An absent name is what
      `getAttribute` reports as `null`. */
  type Attrs = map<string, string>

  /** JavaScript truthiness of a string-or-null: `null` and `""` are falsy,
      every other string is truthy. */
  predicate Truthy(v: Option<string>)
  {
    v.Some? && v.value != ""
  }

  /** `getAttribute(name)` */
  function GetAttribute(attrs: Attrs, name: string): (r: Option<string>)
    ensures r.Some? <==> name in attrs
    ensures r.Some? ==> r.value == attrs[name]
  {
    if name in attrs then Some(attrs[name]) else None
  }

  /** `if (this.getAttribute(name))`: the attribute is there and non-empty. */
  predicate Present(attrs: Attrs, name: string)
  {
    Truthy(GetAttribute(attrs, name))
  }

  predicate IsDigit(c: char)
  {
    '0' <= c <= '9'
  }

  function DigitChar(d: nat): (c: char)
    requires d < 10
    ensures IsDigit(c)
    ensures c as int - '0' as int == d
  {
    "0123456789"[d]
  }

  function DigitValue(c: char): (d: nat)
    requires IsDigit(c)
    ensures d < 10
  {
    c as int - '0' as int
  }

  /** The numeral `${n}` prints for a non-negative whole number. */
  function NatToString(n: nat): (r: string)
    ensures |r| >= 1
    ensures forall i :: 0 <= i < |r| ==> IsDigit(r[i])
    ensures r[0] == '0' ==> n == 0
    decreases n
  {
    if n < 10 then [DigitChar(n)] else NatToString(n / 10) + [DigitChar(n % 10)]
  }

  /** Reads a non-empty run of decimal digits back as a number. */
  function ParseDecimal(s: string): (n: nat)
    requires forall i :: 0 <= i < |s| ==> IsDigit(s[i])
    decreases |s|
  {
    if |s| == 0 then 0 else 10 * ParseDecimal(s[..|s| - 1]) + DigitValue(s[|s| - 1])
  }

  /** The printed numeral denotes exactly the count it was printed from. */
  lemma {:induction false} ParseNatToString(n: nat)
    ensures ParseDecimal(NatToString(n)) == n
    decreases n
  {
    var s := NatToString(n);
    if n >= 10 {
      ParseNatToString(n / 10);
      assert s[..|s| - 1] == NatToString(n / 10);
    }
  }

  /** Different counts never print the same numeral. */
  lemma NatToStringInjective(m: nat, n: nat)
    requires NatToString(m) == NatToString(n)
    ensures m == n
  {
    ParseNatToString(m);
    ParseNatToString(n);
  }

  /** `Array.prototype.join('')` on strings: the pieces in order, with no
      separator. */
  function Join(parts: seq<string>): (r: string)
    ensures |parts| == 0 ==> r == ""
    ensures |parts| == 1 ==> r == parts[0]
    decreases |parts|
  {
    if |parts| == 0 then "" else parts[0] + Join(parts[1..])
  }

  /** Joining is compatible with splitting the list anywhere: every piece
      appears once, in its place, with nothing between neighbours. */
  lemma {:induction false} JoinAppend(xs: seq<string>, ys: seq<string>)
    ensures Join(xs + ys) == Join(xs) + Join(ys)
    decreases |xs|
  {
    if |xs| == 0 {
      assert xs + ys == ys;
    } else {
      assert (xs + ys)[1..] == xs[1..] + ys;
      JoinAppend(xs[1..], ys);
    }
  }
}
