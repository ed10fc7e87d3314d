/** The few Python notions the signatures rely on: optional arguments, dynamically typed argument
    values, ASCII lower-casing, and the objects the engine hands to a signature. */
module PyModel {

  datatype Option<+T> = None | Some(value: T)

  /** A call argument as `get_argument` returns it: absent, a number, or a text. */
  datatype Value = Absent | Number(n: int) | Text(s: string)

  /** What `on_call` told the engine: True, nothing, or False. An exception raised inside `on_call`
      is turned into False by the engine, so it is `Rejected` here. */
  datatype Verdict = Matched | Rejected | Streaming

  /** One entry of `results["behavior"]["processes"]`, without its calls. */
  datatype Process = Process(id: nat, name: string)

  /** One API call together with the process that made it. */
  datatype Event<+C> = Event(proc: Process, call: C)

  /** A process with all its calls, as the engine stores it. */
  datatype ProcessLog<+C> = ProcessLog(proc: Process, calls: seq<C>)

  function LowerChar(c: char): char {
    if 'A' <= c <= 'Z' then ((c as int) + 32) as char else c
  }

  /** `str.lower` on ASCII text. */
  function Lower(s: string): string {
    seq(|s|, i requires 0 <= i < |s| => LowerChar(s[i]))
  }

  function Digit(d: nat): char
    requires d < 10
  {
    ['0', '1', '2', '3', '4', '5', '6', '7', '8', '9'][d]
  }

  function Decimal(n: nat): string {
    if n < 10 then [Digit(n)] else Decimal(n / 10) + [Digit(n % 10)]
  }

  lemma {:induction false} DecimalDigits(n: nat)
    ensures Decimal(n) != "" && '0' <= Decimal(n)[0] <= '9'
    ensures n >= 10 ==> |Decimal(n)| > 1
  {
    if n >= 10 { DecimalDigits(n / 10); }
  }

  lemma {:induction false} DecimalInjective(n: nat, m: nat)
    requires Decimal(n) == Decimal(m)
    ensures n == m
  {
    DecimalDigits(n);
    DecimalDigits(m);
    if n >= 10 {
      var a, b := Decimal(n / 10), Decimal(m / 10);
      assert a == Decimal(n)[..|Decimal(n)| - 1] == b;
      DecimalInjective(n / 10, m / 10);
    }
    assert Last(Decimal(n)) == Digit(n % 10) && Last(Decimal(m)) == Digit(m % 10);
  }

  /** Only a number and its own decimal text have the text of a pid. */
  lemma StrOfPid(v: Value, pid: nat)
    ensures Str(v) == Str(Number(pid)) <==> v == Number(pid) || v == Text(Decimal(pid))
  {
    DecimalDigits(pid);
    if v.Number? && v.n >= 0 && Str(v) == Str(Number(pid)) { DecimalInjective(v.n, pid); }
  }

  /** `str(v)`. */
  function Str(v: Value): string {
    match v
    case Absent => "None"
    case Number(n) => if n < 0 then "-" + Decimal(-n) else Decimal(n)
    case Text(s) => s
  }

  predicate StartsWith(s: string, prefix: string) {
    |prefix| <= |s| && s[..|prefix|] == prefix
  }

  /** `needle in s`. */
  predicate Contains(s: string, needle: string) {
    exists i :: 0 <= i <= |s| && StartsWith(s[i..], needle)
  }

  // ---- what these functions compute ----

  const UPPER := "ABCDEFGHIJKLMNOPQRSTUVWXYZ"
  const LOWER := "abcdefghijklmnopqrstuvwxyz"

  lemma Alphabet(i: nat)
    requires i < 26
    ensures UPPER[i] as int == 'A' as int + i && LOWER[i] as int == 'a' as int + i
  {
  }

  /** Each capital becomes the small letter at its place in the alphabet; nothing else changes. */
  lemma LowerInFull(s: string, k: nat)
    requires k < |s|
    ensures |Lower(s)| == |s|
    ensures forall i: nat :: i < 26 && s[k] == UPPER[i] ==> Lower(s)[k] == LOWER[i]
    ensures s[k] !in UPPER ==> Lower(s)[k] == s[k]
  {
    forall i: nat | i < 26 && s[k] == UPPER[i] ensures Lower(s)[k] == LOWER[i] { Alphabet(i); }
    if 'A' <= s[k] <= 'Z' {
      Alphabet(s[k] as int - 'A' as int);
      assert s[k] == UPPER[s[k] as int - 'A' as int];
    }
  }

  lemma StartsWithInFull(s: string, prefix: string)
    ensures StartsWith(s, prefix) <==> exists rest :: s == prefix + rest
  {
    if StartsWith(s, prefix) { assert s == prefix + s[|prefix|..]; }
  }

  lemma ContainsInFull(s: string, needle: string)
    ensures Contains(s, needle) <==> exists before, rest :: s == before + needle + rest
  {
    if i :| 0 <= i <= |s| && StartsWith(s[i..], needle) {
      assert s == s[..i] + needle + s[i..][|needle|..];
    }
    if before, rest :| s == before + needle + rest {
      assert s[|before|..] == needle + rest;
      assert StartsWith(s[|before|..], needle);
    }
  }

  predicate IsDigit(c: char) { '0' <= c <= '9' }

  /** `int(s)` for a text of decimal digits. */
  function ValueOf(s: string): int {
    if s == "" then 0 else 10 * ValueOf(Front(s)) + (Last(s) as int - '0' as int)
  }

  /** The text of a number is made of digits, without a leading zero, and reads back as the number. */
  lemma {:induction false} DecimalInFull(n: nat)
    ensures Decimal(n) != "" && (forall k :: 0 <= k < |Decimal(n)| ==> IsDigit(Decimal(n)[k]))
    ensures Decimal(n)[0] == '0' ==> n == 0
    ensures ValueOf(Decimal(n)) == n
  {
    if n < 10 {
      assert ValueOf("") == 0;
      assert Front(Decimal(n)) == "";
    } else {
      DecimalInFull(n / 10);
      assert Front(Decimal(n)) == Decimal(n / 10) && Last(Decimal(n)) == Digit(n % 10);
    }
  }

  lemma StrInFull(v: Value)
    ensures v.Absent? ==> Str(v) == "None"
    ensures v.Text? ==> Str(v) == v.s
    ensures v.Number? && v.n >= 0 ==> ValueOf(Str(v)) == v.n
    ensures v.Number? && v.n < 0 ==> Str(v) != "" && Str(v)[0] == '-' && ValueOf(Str(v)[1..]) == -v.n
  {
    if v.Number? {
      DecimalInFull(if v.n < 0 then -v.n else v.n);
      if v.n < 0 { assert Str(v)[1..] == Decimal(-v.n); }
    }
  }

  function Last<T>(s: seq<T>): T
    requires s != []
  {
    s[|s| - 1]
  }

  function Front<T>(s: seq<T>): seq<T>
    requires s != []
  {
    s[..|s| - 1]
  }
}
