/** SSH connections and the text keys that identify them (internal/monitor/connection.go and
    sessionKey in internal/monitor/identity.go). */
module Session {
  import opened Netip

  datatype Connection = Connection(
    pid: int, command: string, user: string, local: Endpoint, remote: Endpoint, state: string,
    methods: seq<string>, fingerprints: seq<string>)

  function Digit(d: nat): char
    requires d < 10
  {
    ('0' as int + d) as char
  }

  /** A decimal number as `%d` prints it. */
  function Decimal(n: int): string {
    if n < 0 then "-" + Natural(-n) else Natural(n)
  }

  function Natural(n: nat): string {
    if n < 10 then [Digit(n)] else Natural(n / 10) + [Digit(n % 10)]
  }

  predicate IsDigits(s: string) {
    s != "" && forall i :: 0 <= i < |s| ==> '0' <= s[i] <= '9'
  }

  lemma {:induction false} NaturalIsDigits(n: nat)
    ensures IsDigits(Natural(n))
  {
    if n >= 10 {
      NaturalIsDigits(n / 10);
    }
  }

  lemma {:induction false} NaturalInjective(m: nat, n: nat)
    requires Natural(m) == Natural(n)
    ensures m == n
  {
    var s, t := Natural(m), Natural(n);
    assert s[|s| - 1] == Digit(m % 10) && t[|t| - 1] == Digit(n % 10);
    if m >= 10 && n >= 10 {
      assert s[..|s| - 1] == Natural(m / 10) && t[..|t| - 1] == Natural(n / 10);
      NaturalInjective(m / 10, n / 10);
    }
  }

  lemma SignShows(m: int, n: nat)
    requires m < 0
    ensures Decimal(m) != Decimal(n)
  {
    NaturalIsDigits(n);
    assert Decimal(m)[0] == '-';
    assert '0' <= Decimal(n)[0];
  }

  lemma DecimalInjective(m: int, n: int)
    requires Decimal(m) == Decimal(n)
    ensures m == n
  {
    if m < 0 && n < 0 {
      assert Decimal(m)[1..] == Natural(-m);
      assert Decimal(n)[1..] == Natural(-n);
      NaturalInjective(-m, -n);
    } else if m < 0 {
      SignShows(m, n);
    } else if n < 0 {
      SignShows(n, m);
    } else {
      NaturalInjective(m, n);
    }
  }

  lemma DecimalHasNoSlash(n: int)
    ensures forall i :: 0 <= i < |Decimal(n)| ==> Decimal(n)[i] != '/'
  {
    NaturalIsDigits(if n < 0 then -n else n);
  }

  /** The key of a session: process and remote end, with the library's endpoint format. */
  function SessionKey(format: Endpoint -> string, pid: int, remote: Endpoint): string {
    Decimal(pid) + "/" + format(remote)
  }

  function Key(format: Endpoint -> string, c: Connection): string {
    SessionKey(format, c.pid, c.remote)
  }

  /** The library prints distinct endpoints differently: its parser inverts its printer. */
  ghost predicate Injective(format: Endpoint -> string) {
    forall a, b :: format(a) == format(b) ==> a == b
  }

  /** The key determines the process and the remote end. */
  lemma SessionKeyInjective(format: Endpoint -> string, p: int, a: Endpoint, q: int, b: Endpoint)
    requires Injective(format)
    ensures SessionKey(format, p, a) == SessionKey(format, q, b) <==> p == q && a == b
  {
    var s, t := SessionKey(format, p, a), SessionKey(format, q, b);
    DecimalHasNoSlash(p);
    DecimalHasNoSlash(q);
    var m, n := |Decimal(p)|, |Decimal(q)|;
    assert s[m] == '/' && t[n] == '/';
    assert s[..m] == Decimal(p) && t[..n] == Decimal(q);
    assert n < m ==> s[n] == Decimal(p)[n];
    assert m < n ==> t[m] == Decimal(q)[m];
    if s == t {
      assert s[m + 1..] == format(a) && t[m + 1..] == format(b);
      DecimalInjective(p, q);
    }
  }
}
