/**
  The one-time passwords of `boddos/security/totp.py`: the digits that a counter prints, and the search around the
  clock's own counter. HMAC-SHA1, base32 and the upper-casing of the secret are parameters.
*/
module Totp {
  import opened Decimal
  import opened Wrappers

  type Byte = b: int | 0 <= b < 256

  type Digest = m: seq<Byte> | |m| == 20 witness [0, 0, 0, 0, 0, 0, 0, 0, 0, 0, 0, 0, 0, 0, 0, 0, 0, 0, 0, 0]

  /** `decode` has no value where Python's raises. */
  datatype Env = Env(
    upper: string -> string,
    decode: string -> Option<seq<Byte>>,
    hmac: (seq<Byte>, seq<Byte>) -> Digest,
    isSpace: char -> bool)

  datatype Result = Accepted | Rejected | Raised

  const COUNTERS: nat := 0x1_0000_0000_0000_0000

  // ------------------------------------------------------------------ bytes

  /** `struct.pack`, most significant byte first. */
  function Pack(n: nat, width: nat): (s: seq<Byte>)
    ensures |s| == width
  {
    if width == 0 then [] else Pack(n / 256, width - 1) + [n % 256]
  }

  function Unpack(s: seq<Byte>): nat {
    if s == [] then 0 else 256 * Unpack(s[..|s| - 1]) + s[|s| - 1]
  }

  function Pow256(k: nat): nat {
    if k == 0 then 1 else 256 * Pow256(k - 1)
  }

  lemma {:induction false} PackReadsBack(n: nat, width: nat)
    requires n < Pow256(width)
    ensures Unpack(Pack(n, width)) == n
  {
    if width > 0 {
      PackReadsBack(n / 256, width - 1);
      assert Pack(n, width)[..width - 1] == Pack(n / 256, width - 1);
    }
  }

  lemma EightBytes()
    ensures Pow256(8) == COUNTERS
  {
    assert Pow256(2) == 0x1_0000;
    assert Pow256(4) == 256 * (256 * Pow256(2));
    assert Pow256(6) == 256 * (256 * Pow256(4));
    assert Pow256(8) == 256 * (256 * Pow256(6));
  }

  /** Different counters are different messages. */
  lemma MessagesDiffer(a: nat, b: nat)
    requires a < COUNTERS && b < COUNTERS && Pack(a, 8) == Pack(b, 8)
    ensures a == b
  {
    EightBytes();
    PackReadsBack(a, 8);
    PackReadsBack(b, 8);
  }

  // ------------------------------------------------------------------ the code of a counter

  /** Where the four bytes start: the low four bits of the last byte. */
  function Offset(m: Digest): (offset: nat)
    ensures offset + 4 <= |m|
  {
    m[19] % 16
  }

  /** The low 31 bits of those four bytes. */
  function Truncate(m: Digest): nat {
    Unpack(m[Offset(m)..Offset(m) + 4]) % 0x8000_0000
  }

  function Printed(n: nat, digits: nat): string {
    Zfill(Str(n % Pow10(digits)), digits)
  }

  function CodeAt(env: Env, key: seq<Byte>, counter: nat, digits: nat): string {
    Printed(Truncate(env.hmac(key, Pack(counter, 8))), digits)
  }

  function Padding(secret: string): string {
    seq((8 - |secret| % 8) % 8, _ => '=')
  }

  function Key(env: Env, secret: string): Option<seq<Byte>> {
    env.decode(env.upper(secret) + Padding(secret))
  }

  /** `_hotp`; nothing where it raises. */
  function Hotp(env: Env, secret: string, counter: int, digits: nat): Option<string> {
    var key := Key(env, secret);
    if key.None? || !(0 <= counter < COUNTERS) then None else Some(CodeAt(env, key.value, counter, digits))
  }

  /** The number a digest stands for, byte by byte as in section 5.4 of RFC 4226, without the sign bit of the first. */
  function NumberOf(m: Digest): int {
    var o := m[19] % 16;
    var b0: int, b1: int, b2: int, b3: int := m[o], m[o + 1], m[o + 2], m[o + 3];
    b0 % 128 * 0x100_0000 + b1 * 0x1_0000 + b2 * 0x100 + b3
  }

  lemma TruncateByBytes(m: Digest)
    ensures var o := m[19] % 16;
            var b0: int, b1: int, b2: int, b3: int := m[o], m[o + 1], m[o + 2], m[o + 3];
            Truncate(m) == b0 % 128 * 0x100_0000 + b1 * 0x1_0000 + b2 * 0x100 + b3
  {
    var o := Offset(m);
    var s := m[o..o + 4];
    assert s[..3][..2] == s[..2] && s[..3][2] == s[2];
    assert s[..2][..1] == s[..1] && s[..2][1] == s[1];
    assert Unpack(s[..1]) == 256 * Unpack(s[..1][..0]) + s[0];
    assert Unpack(s[..2]) == 256 * Unpack(s[..1]) + s[1];
    assert Unpack(s[..3]) == 256 * Unpack(s[..2]) + s[2];
    var b0: int, b1: int, b2: int, b3: int := s[0], s[1], s[2], s[3];
    assert Unpack(s) == b0 * 0x100_0000 + b1 * 0x1_0000 + b2 * 0x100 + b3;
  }

  /** A printed code has exactly the digits asked for, and they read back as the number. */
  lemma PrintedReadsBack(n: nat, digits: nat)
    requires digits >= 1
    ensures var s := Printed(n, digits);
            |s| == digits && AllDigits(s) && Value(s) == n % Pow10(digits)
  {
    var r := n % Pow10(digits);
    StrReadsBack(r);
    StrWidth(r, digits);
    LeadingZeros(digits - |Str(r)|, Str(r));
  }

  lemma SmallRemainder(a: nat, p: nat)
    requires a < p
    ensures a % p == a
  {
  }

  /** Below `10^digits` no two numbers print alike. */
  lemma PrintingIsInjective(a: nat, b: nat, digits: nat)
    requires digits >= 1 && a < Pow10(digits) && b < Pow10(digits) && Printed(a, digits) == Printed(b, digits)
    ensures a == b
  {
    PrintedReadsBack(a, digits);
    PrintedReadsBack(b, digits);
    SmallRemainder(a, Pow10(digits));
    SmallRemainder(b, Pow10(digits));
  }

  // ------------------------------------------------------------------ verification

  function LStrip(isSpace: char -> bool, s: string): string {
    if s != "" && isSpace(s[0]) then LStrip(isSpace, s[1..]) else s
  }

  function RStrip(isSpace: char -> bool, s: string): string {
    if s != "" && isSpace(s[|s| - 1]) then RStrip(isSpace, s[..|s| - 1]) else s
  }

  function Strip(isSpace: char -> bool, s: string): string {
    RStrip(isSpace, LStrip(isSpace, s))
  }

  predicate Ascii(s: string) {
    forall c :: c in s ==> c < 128 as char
  }

  /** The time step of a clock reading. */
  function Counter(t: real, step: int): int
    requires step != 0
  {
    (t / step as real).Floor
  }

  /** Some step of the window prints these six digits. */
  ghost predicate Printable(env: Env, key: seq<Byte>, first: int, last: int, code: string) {
    exists n: nat :: first <= n <= last && n < COUNTERS && CodeAt(env, key, n, 6) == code
  }

  /** The search of the steps within `window` of `counter` finds the code before it raises. */
  ghost predicate Finds(env: Env, key: Option<seq<Byte>>, counter: int, window: int, code: string) {
    key.Some? && counter - window >= 0 && Printable(env, key.value, counter - window, counter + window, code)
  }

  /**
    The search raises unless it finds the code first: on a secret that is not base32, a step outside 64 bits, or a code
    that is not ASCII.
  */
  ghost predicate Breaks(env: Env, key: Option<seq<Byte>>, counter: int, window: int, code: string) {
    && window >= 0
    && !Finds(env, key, counter, window, code)
    && (key.None? || counter - window < 0 || counter + window >= COUNTERS || !Ascii(code))
  }

  ghost predicate Accepts(env: Env, secret: string, code: string, window: int, step: int, now: real) {
    && secret != "" && code != "" && step != 0
    && Finds(env, Key(env, secret), Counter(now, step), window, Strip(env.isSpace, code))
  }

  ghost predicate Raises(env: Env, secret: string, code: string, window: int, step: int, now: real) {
    && secret != "" && code != ""
    && (step == 0 || Breaks(env, Key(env, secret), Counter(now, step), window, Strip(env.isSpace, code)))
  }

  /** `hmac.compare_digest` raises on text that is not ASCII. */
  method CompareDigest(a: string, b: string) returns (same: Option<bool>)
    ensures same == if Ascii(a) && Ascii(b) then Some(a == b) else None
  {
    same := if Ascii(a) && Ascii(b) then Some(a == b) else None;
  }

  lemma CodesAreAscii(env: Env, key: seq<Byte>, counter: nat)
    ensures Ascii(CodeAt(env, key, counter, 6))
  {
    PrintedReadsBack(Truncate(env.hmac(key, Pack(counter, 8))), 6);
  }

  lemma FoundIsAscii(env: Env, key: Option<seq<Byte>>, counter: int, window: int, code: string)
    requires Finds(env, key, counter, window, code)
    ensures Ascii(code)
  {
    var n: nat :| CodeAt(env, key.value, n, 6) == code;
    CodesAreAscii(env, key.value, n);
  }

  method Search(env: Env, secret: string, counter: int, window: int, code: string) returns (r: Result)
    ensures r == Accepted <==> Finds(env, Key(env, secret), counter, window, code)
    ensures r == Raised <==> Breaks(env, Key(env, secret), counter, window, code)
  {
    ghost var key := Key(env, secret);
    var w := -window;
    while w < window + 1
      invariant window >= 0 ==> -window <= w <= window + 1
      invariant w > -window ==> key.Some? && Ascii(code) && counter - window >= 0 && counter + w <= COUNTERS
      invariant key.Some? ==> !Printable(env, key.value, counter - window, counter + w - 1, code)
    {
      var h := Hotp(env, secret, counter + w, 6);
      if h.None? {
        return Raised;
      }
      CodesAreAscii(env, key.value, counter + w);
      var same := CompareDigest(h.value, code);
      if same.None? {
        if Finds(env, key, counter, window, code) {
          FoundIsAscii(env, key, counter, window, code);
        }
        return Raised;
      }
      if same.value {
        return Accepted;
      }
      w := w + 1;
    }
    return Rejected;
  }

  method Verify(env: Env, secret: string, code: string, window: int, step: int, now: real) returns (r: Result)
    ensures r == Accepted <==> Accepts(env, secret, code, window, step, now)
    ensures r == Raised <==> Raises(env, secret, code, window, step, now)
  {
    if secret == "" || code == "" {
      return Rejected;
    }
    if step == 0 {
      return Raised;
    }
    r := Search(env, secret, Counter(now, step), window, Strip(env.isSpace, code));
  }

  // ------------------------------------------------------------------ lifetime

  lemma CounterMoves(t: real, u: real, step: int, k: int)
    requires step > 0
    ensures t <= u + (k * step) as real ==> Counter(t, step) <= Counter(u, step) + k
    ensures t >= u + (k * step) as real ==> Counter(t, step) >= Counter(u, step) + k
  {
    var s := step as real;
    assert (k * step) as real == k as real * s;
    assert (u + k as real * s) / s == u / s + k as real;
    assert t <= u + k as real * s ==> t / s <= (u + k as real * s) / s;
    assert t >= u + k as real * s ==> t / s >= (u + k as real * s) / s;
  }

  /**
    A code made at `made` is accepted at every `now` within `window` steps of it, on either side; except that the search
    raises instead while the clock's counter is below the window.
  */
  lemma FreshCodeIsAccepted(env: Env, secret: string, window: nat, step: int, made: real, now: real)
    requires secret != "" && Key(env, secret).Some? && step > 0
    requires forall c: char :: '0' <= c <= '9' ==> !env.isSpace(c)
    requires 0 <= Counter(made, step) < COUNTERS
    requires made - (window * step) as real <= now <= made + (window * step) as real
    ensures var code := CodeAt(env, Key(env, secret).value, Counter(made, step), 6);
            && (Accepts(env, secret, code, window, step, now) <==> Counter(now, step) >= window)
            && (Raises(env, secret, code, window, step, now) <==> Counter(now, step) < window)
  {
    var key := Key(env, secret).value;
    var n: nat := Counter(made, step);
    var code := CodeAt(env, key, n, 6);
    PrintedReadsBack(Truncate(env.hmac(key, Pack(n, 8))), 6);
    assert Strip(env.isSpace, code) == code;
    CounterMoves(now, made, step, window);
    CounterMoves(made, now, step, window);
    assert Counter(now, step) - window <= n <= Counter(now, step) + window;
  }

  /** From `window + 1` steps away, a code is accepted only if another counter prints the same digits. */
  lemma StaleCodeNeedsATwin(env: Env, secret: string, window: nat, step: int, made: real, now: real)
    requires secret != "" && Key(env, secret).Some? && step > 0 && Counter(made, step) >= 0
    requires forall c: char :: '0' <= c <= '9' ==> !env.isSpace(c)
    requires now <= made - ((window + 1) * step) as real || now >= made + ((window + 1) * step) as real
    ensures !(Counter(now, step) - window <= Counter(made, step) <= Counter(now, step) + window)
    ensures var key := Key(env, secret).value;
            var code := CodeAt(env, key, Counter(made, step), 6);
            Accepts(env, secret, code, window, step, now) ==>
            exists n: nat :: n != Counter(made, step)
                             && Counter(now, step) - window <= n <= Counter(now, step) + window
                             && CodeAt(env, key, n, 6) == code
  {
    var key := Key(env, secret).value;
    var code := CodeAt(env, key, Counter(made, step), 6);
    PrintedReadsBack(Truncate(env.hmac(key, Pack(Counter(made, step), 8))), 6);
    assert Strip(env.isSpace, code) == code;
    CounterMoves(now, made, step, window + 1);
    CounterMoves(made, now, step, window + 1);
  }

  // ------------------------------------------------------------------ verification in plain terms

  /** Six digits that print the number of a digest modulo a million. */
  predicate Prints(m: Digest, code: string) {
    |code| == 6 && AllDigits(code) && Value(code) == NumberOf(m) % 1_000_000
  }

  /** The code of a counter: of the digest, under the key, of the eight bytes that hold it, most significant first. */
  ghost predicate IsCode(env: Env, key: seq<Byte>, counter: nat, code: string) {
    exists msg: seq<Byte> :: Holds(msg, counter) && Prints(env.hmac(key, msg), code)
  }

  predicate Holds(msg: seq<Byte>, counter: nat) {
    |msg| == 8 && Unpack(msg) == counter
  }

  lemma {:induction false} UnpackIsInjective(a: seq<Byte>, b: seq<Byte>)
    requires |a| == |b| && Unpack(a) == Unpack(b)
    ensures a == b
  {
    if a == [] {
      assert b == [];
    } else {
      var n := |a| - 1;
      var x: int, y: int := a[n], b[n];
      assert x == Unpack(a) % 256 && y == Unpack(b) % 256;
      UnpackIsInjective(a[..n], b[..n]);
      assert a == a[..n] + [a[n]] && b == b[..n] + [b[n]];
    }
  }

  lemma {:induction false} ValueIsInjective(a: string, b: string)
    requires AllDigits(a) && AllDigits(b) && |a| == |b| && Value(a) == Value(b)
    ensures a == b
  {
    if a == "" {
      assert b == "";
    } else {
      var n := |a| - 1;
      assert a[n] as int - 48 == Value(a) % 10 && b[n] as int - 48 == Value(b) % 10;
      ValueIsInjective(a[..n], b[..n]);
      assert a == a[..n] + [a[n]] && b == b[..n] + [b[n]];
    }
  }

  lemma Million()
    ensures Pow10(6) == 1_000_000
  {
    assert Pow10(2) == 100;
    assert Pow10(4) == 10 * (10 * Pow10(2));
    assert Pow10(6) == 10 * (10 * Pow10(4));
  }

  /** What a digest prints as is the only text that prints it. */
  lemma PrintedPrints(m: Digest, code: string)
    ensures Printed(Truncate(m), 6) == code <==> Prints(m, code)
  {
    TruncateByBytes(m);
    PrintedReadsBack(Truncate(m), 6);
    Million();
    if Prints(m, code) {
      ValueIsInjective(Printed(Truncate(m), 6), code);
    }
  }

  lemma CodeInPlain(env: Env, key: seq<Byte>, counter: nat, code: string)
    requires counter < COUNTERS
    ensures CodeAt(env, key, counter, 6) == code <==> IsCode(env, key, counter, code)
  {
    EightBytes();
    PackReadsBack(counter, 8);
    var packed := Pack(counter, 8);
    assert Holds(packed, counter);
    PrintedPrints(env.hmac(key, packed), code);
    forall msg | Holds(msg, counter) ensures msg == packed {
      UnpackIsInjective(msg, packed);
    }
  }

  /** The step of a reading: step 0 lasts from 0 to `step` seconds. */
  lemma CounterInPlain(t: real, step: int, c: int)
    requires step > 0
    ensures Counter(t, step) == c <==> (c * step) as real <= t < ((c + 1) * step) as real
  {
    CounterMoves(t, 0.0, step, c);
    CounterMoves(t, 0.0, step, c + 1);
    assert Counter(0.0, step) == 0;
    Multiples(t, step);
  }

  lemma Product(a: int, b: int)
    ensures (a * b) as real == a as real * b as real
  {
  }

  lemma Times(a: real, b: real, s: real)
    requires s > 0.0
    ensures a <= b ==> a * s <= b * s
    ensures a < b ==> a * s < b * s
  {
  }

  /** A reading lies in the step of its own counter. */
  lemma Multiples(t: real, step: int)
    requires step > 0
    ensures var c := Counter(t, step); (c * step) as real <= t < ((c + 1) * step) as real
  {
    var s, c := step as real, Counter(t, step);
    var d := c + 1;
    assert c as real <= t / s < d as real;
    assert t == t / s * s;
    Times(c as real, t / s, s);
    Times(t / s, d as real, s);
    Product(c, step);
    Product(d, step);
  }

  /** A code with any margins of white space. */
  predicate Trims(isSpace: char -> bool, code: string, before: string, inner: string, after: string) {
    && code == before + inner + after
    && (forall i :: 0 <= i < |before| ==> isSpace(before[i])) && (forall i :: 0 <= i < |after| ==> isSpace(after[i]))
    && (inner != "" ==> !isSpace(inner[0]) && !isSpace(inner[|inner| - 1]))
    && (inner == "" ==> after == "")
  }

  lemma {:induction false} LStripInPlain(isSpace: char -> bool, before: string, rest: string)
    requires forall i :: 0 <= i < |before| ==> isSpace(before[i])
    requires rest != "" ==> !isSpace(rest[0])
    ensures LStrip(isSpace, before + rest) == rest
  {
    if before == "" {
      assert before + rest == rest;
    } else {
      LStripInPlain(isSpace, before[1..], rest);
      assert (before + rest)[1..] == before[1..] + rest;
    }
  }

  lemma {:induction false} RStripInPlain(isSpace: char -> bool, rest: string, after: string)
    requires forall i :: 0 <= i < |after| ==> isSpace(after[i])
    requires rest != "" ==> !isSpace(rest[|rest| - 1])
    ensures RStrip(isSpace, rest + after) == rest
  {
    if after == "" {
      assert rest + after == rest;
    } else {
      var n := |after| - 1;
      RStripInPlain(isSpace, rest, after[..n]);
      assert (rest + after)[..|rest + after| - 1] == rest + after[..n];
    }
  }

  lemma StripInPlain(isSpace: char -> bool, code: string, before: string, inner: string, after: string)
    requires Trims(isSpace, code, before, inner, after)
    ensures Strip(isSpace, code) == inner
  {
    assert code == before + (inner + after);
    if inner == "" {
      assert inner + after == "";
    }
    LStripInPlain(isSpace, before, inner + after);
    RStripInPlain(isSpace, inner, after);
  }

  /** The secret is put in upper case and filled up with `=` to whole groups of eight. */
  lemma KeyInPlain(env: Env, secret: string, pad: string)
    requires |pad| < 8 && (|secret| + |pad|) % 8 == 0 && forall i :: 0 <= i < |pad| ==> pad[i] == '='
    ensures Key(env, secret) == env.decode(env.upper(secret) + pad)
  {
    assert pad == Padding(secret);
  }

  /**
    `verify` accepts exactly when there are a secret and a code, the filled-up secret is base32, no step of the window
    is below 0, and the code without its margins is the code of a counter of the window.
  */
  lemma AcceptsInPlain(env: Env, secret: string, pad: string,
                       code: string, before: string, inner: string, after: string,
                       window: int, step: int, now: real, c: int)
    requires step > 0 && (c * step) as real <= now < ((c + 1) * step) as real
    requires |pad| < 8 && (|secret| + |pad|) % 8 == 0 && forall i :: 0 <= i < |pad| ==> pad[i] == '='
    requires Trims(env.isSpace, code, before, inner, after)
    ensures var key := env.decode(env.upper(secret) + pad);
            Accepts(env, secret, code, window, step, now) <==>
            && secret != "" && code != "" && key.Some? && c - window >= 0
            && exists n: nat :: c - window <= n <= c + window && n < 0x1_0000_0000_0000_0000
                                && IsCode(env, key.value, n, inner)
  {
    CounterInPlain(now, step, c);
    KeyInPlain(env, secret, pad);
    StripInPlain(env.isSpace, code, before, inner, after);
    var key := env.decode(env.upper(secret) + pad);
    if key.Some? {
      forall n: nat | n < COUNTERS
        ensures CodeAt(env, key.value, n, 6) == inner <==> IsCode(env, key.value, n, inner)
      {
        CodeInPlain(env, key.value, n, inner);
      }
    }
  }

  /** It raises exactly when it does not accept and meets, in a window that is not empty, something it cannot handle. */
  lemma RaisesInPlain(env: Env, secret: string, pad: string,
                      code: string, before: string, inner: string, after: string,
                      window: int, step: int, now: real, c: int)
    requires step > 0 && (c * step) as real <= now < ((c + 1) * step) as real
    requires |pad| < 8 && (|secret| + |pad|) % 8 == 0 && forall i :: 0 <= i < |pad| ==> pad[i] == '='
    requires Trims(env.isSpace, code, before, inner, after)
    ensures Raises(env, secret, code, window, step, now) <==>
            && secret != "" && code != "" && window >= 0 && !Accepts(env, secret, code, window, step, now)
            && (|| env.decode(env.upper(secret) + pad).None?
                || c - window < 0 || c + window >= 0x1_0000_0000_0000_0000
                || exists i :: 0 <= i < |inner| && inner[i] >= 128 as char)
  {
    CounterInPlain(now, step, c);
    KeyInPlain(env, secret, pad);
    StripInPlain(env.isSpace, code, before, inner, after);
    assert Ascii(inner) <==> forall i :: 0 <= i < |inner| ==> inner[i] < 128 as char by {
      if Ascii(inner) {
        forall i | 0 <= i < |inner| ensures inner[i] < 128 as char {
          assert inner[i] in inner;
        }
      }
    }
  }
}
