/**
 * The slice of JavaScript semantics the handlers rely on: optional values,
 * truthiness, property access on parsed JSON, and the string operations
 * `split`, `toLowerCase` and number-to-string rendering.
 */
module Js {

  datatype Option<+T> = None | Some(value: T)

  /** A value as produced by `JSON.parse`, plus `undefined` for a missing property. */
  datatype JsValue =
    | Undefined
    | Null
    | Bool(b: bool)
    | Number(n: real)
    | Str(s: string)
    | Array(items: seq<JsValue>)
    | Object(fields: map<string, JsValue>)

  /** JavaScript truthiness: `!!v`. */
  predicate Truthy(v: JsValue)
  {
    match v
    case Undefined => false
    case Null => false
    case Bool(b) => b
    case Number(n) => n != 0.0
    case Str(s) => s != ""
    case Array(_) => true
    case Object(_) => true
  }

  /** Truthiness of a `string | undefined`: present and non-empty. */
  predicate Present(s: Option<string>)
  {
    s.Some? && s.value != ""
  }

  /** `s || fallback` for a `string | undefined`. */
  function OrElse(s: Option<string>, fallback: string): string
  {
    if Present(s) then s.value else fallback
  }

  /**
   * Destructuring `const { key } = v`: `None` stands for the TypeError thrown
   * when `v` is `null` or `undefined`; an object yields its own data property,
   * or `undefined` when it has none. Inherited and primitive properties
   * (`"abc".length`, `{}.toString`) are not modelled: every other value yields
   * `undefined`, which is what it yields for the keys the handlers read.
   */
  function Field(v: JsValue, key: string): (r: Option<JsValue>)
    ensures r.None? <==> v.Null? || v.Undefined?
    ensures v.Object? && key in v.fields ==> r == Some(v.fields[key])
    ensures v.Object? && key !in v.fields ==> r == Some(Undefined)
  {
    match v
    case Undefined => None
    case Null => None
    case Object(fields) => if key in fields then Some(fields[key]) else Some(Undefined)
    case _ => Some(Undefined)
  }

  // ---------------------------------------------------------------------------
  // String.prototype.toLowerCase, restricted to ASCII letters

  function LowerChar(c: char): char
  {
    if 'A' <= c <= 'Z' then (c as int + 32) as char else c
  }

  function ToLower(s: string): (r: string)
    ensures |r| == |s|
    ensures forall i :: 0 <= i < |s| ==> r[i] == LowerChar(s[i])
    decreases |s|
  {
    if s == [] then [] else [LowerChar(s[0])] + ToLower(s[1..])
  }

  // ---------------------------------------------------------------------------
  // String.prototype.split with a one-character separator, and its inverse

  /** `s.split(sep)`: the maximal separator-free pieces of `s`, in order; never none. */
  function Split(s: string, sep: char): (parts: seq<string>)
    ensures |parts| >= 1
    decreases |s|
  {
    if s == [] then [""]
    else if s[0] == sep then [""] + Split(s[1..], sep)
    else
      var rest := Split(s[1..], sep);
      [[s[0]] + rest[0]] + rest[1..]
  }

  /**
   * No piece holds the separator, and a string without one is a single piece;
   * a string with one has at least two.
   */
  lemma {:induction false} SplitPieces(s: string, sep: char)
    ensures forall i :: 0 <= i < |Split(s, sep)| ==> sep !in Split(s, sep)[i]
    ensures sep !in s ==> Split(s, sep) == [s]
    ensures sep in s ==> |Split(s, sep)| >= 2
    decreases |s|
  {
    if s != [] {
      SplitPieces(s[1..], sep);
      SplitCons(s[0], s[1..], sep);
      assert [s[0]] + s[1..] == s;
    }
  }

  /** The first piece is the prefix of `s` before its first separator. */
  lemma {:induction false} SplitFirstPiece(s: string, sep: char)
    ensures Split(s, sep)[0] <= s
    ensures sep !in Split(s, sep)[0]
    ensures sep in s ==> |Split(s, sep)[0]| < |s| && s[|Split(s, sep)[0]|] == sep
    decreases |s|
  {
    if s != [] {
      SplitFirstPiece(s[1..], sep);
      SplitCons(s[0], s[1..], sep);
      assert [s[0]] + s[1..] == s;
    }
  }

  /** One step of `Split`: the pieces of a string that starts with character `c`. */
  lemma SplitCons(c: char, t: string, sep: char)
    ensures c == sep ==> Split([c] + t, sep) == [""] + Split(t, sep)
    ensures c != sep ==> Split([c] + t, sep) == [[c] + Split(t, sep)[0]] + Split(t, sep)[1..]
  {
    assert ([c] + t)[0] == c && ([c] + t)[1..] == t;
  }

  /** `parts.join(sep)`. */
  function Join(parts: seq<string>, sep: char): string
    requires |parts| >= 1
    decreases |parts|
  {
    if |parts| == 1 then parts[0] else parts[0] + [sep] + Join(parts[1..], sep)
  }

  /** Joining the pieces of a split gives back the original string. */
  lemma {:induction false} SplitJoin(s: string, sep: char)
    ensures Join(Split(s, sep), sep) == s
    decreases |s|
  {
    if s != [] {
      SplitJoin(s[1..], sep);
      SplitCons(s[0], s[1..], sep);
      assert [s[0]] + s[1..] == s;
      var rest := Split(s[1..], sep);
      if s[0] == sep {
        assert ([""] + rest)[1..] == rest;
      } else if |rest| > 1 {
        var parts := [[s[0]] + rest[0]] + rest[1..];
        assert parts[1..] == rest[1..];
        assert Join(parts, sep) == [s[0]] + (rest[0] + [sep] + Join(rest[1..], sep));
      }
    }
  }

  /** Splitting at a separator splits the two sides independently. */
  lemma {:induction false} SplitAtSeparator(x: string, y: string, sep: char)
    ensures Split(x + [sep] + y, sep) == Split(x, sep) + Split(y, sep)
    decreases |x|
  {
    if x == [] {
      SplitCons(sep, y, sep);
      assert x + [sep] + y == [sep] + y;
    } else {
      SplitAtSeparator(x[1..], y, sep);
      assert x == [x[0]] + x[1..];
      SplitAtSeparatorStep(x[0], x[1..], y, sep);
    }
  }

  /** The inductive step of `SplitAtSeparator`: put one character in front of `x`. */
  lemma SplitAtSeparatorStep(c: char, x: string, y: string, sep: char)
    requires Split(x + [sep] + y, sep) == Split(x, sep) + Split(y, sep)
    ensures Split([c] + x + [sep] + y, sep) == Split([c] + x, sep) + Split(y, sep)
  {
    var t := x + [sep] + y;
    assert [c] + x + [sep] + y == [c] + t;
    SplitCons(c, t, sep);
    SplitCons(c, x, sep);
    if c != sep {
      ConsPiece([c], Split(x, sep), Split(y, sep));
    }
  }

  /** Gluing a prefix onto the first piece commutes with appending more pieces. */
  lemma ConsPiece(a: string, rest: seq<string>, tail: seq<string>)
    requires |rest| >= 1
    ensures [a + (rest + tail)[0]] + (rest + tail)[1..] == ([a + rest[0]] + rest[1..]) + tail
  {
    assert (rest + tail)[0] == rest[0];
    assert (rest + tail)[1..] == rest[1..] + tail;
  }

  /** Splitting separator-free pieces joined by the separator recovers the pieces. */
  lemma {:induction false} JoinSplit(parts: seq<string>, sep: char)
    requires |parts| >= 1
    requires forall i :: 0 <= i < |parts| ==> sep !in parts[i]
    ensures Split(Join(parts, sep), sep) == parts
    decreases |parts|
  {
    SplitPieces(parts[0], sep);
    if |parts| > 1 {
      JoinSplit(parts[1..], sep);
      SplitAtSeparator(parts[0], Join(parts[1..], sep), sep);
      assert [parts[0]] + parts[1..] == parts;
    }
  }

  // ---------------------------------------------------------------------------
  // Rendering a non-negative integer in a template string: `${n}`

  function Digit(d: nat): (c: char)
    requires d < 10
    ensures '0' <= c <= '9'
  {
    ('0' as int + d) as char
  }

  /** The decimal numeral of `n`, without leading zeros. */
  function DecimalString(n: nat): (s: string)
    ensures |s| >= 1
    ensures forall i :: 0 <= i < |s| ==> '0' <= s[i] <= '9'
    ensures s[0] == '0' <==> n == 0
    decreases n
  {
    if n < 10 then [Digit(n)] else DecimalString(n / 10) + [Digit(n % 10)]
  }

  /** The number a string of decimal digits denotes. */
  function DecimalValue(s: string): nat
    requires forall i :: 0 <= i < |s| ==> '0' <= s[i] <= '9'
    decreases |s|
  {
    if s == [] then 0 else DecimalValue(s[..|s| - 1]) * 10 + (s[|s| - 1] as int - '0' as int)
  }

  /** Rendering a number and reading it back gives the number: no two timestamps share a numeral. */
  lemma {:induction false} DecimalRoundTrip(n: nat)
    ensures DecimalValue(DecimalString(n)) == n
    decreases n
  {
    if n >= 10 {
      DecimalRoundTrip(n / 10);
      var s := DecimalString(n);
      assert s[..|s| - 1] == DecimalString(n / 10);
    }
  }
}
