/** The user database of kernel/users.c: printing, parsing and the round trip.

The parser works on a character buffer with a terminator and on positions in it. */
module Users {
  import opened CStrings

  const USERS_MAX: nat := 16
  const BUFFER: nat := 4096
  const WORD: nat := 0x1_0000_0000

  datatype User = User(uid: nat, gid: nat, name: string, hash: string, home: string, shell: string,
                       active: bool, locked: bool)

  /** The buffer sizes of the eight fields of a line. */
  const SIZES: seq<nat> := [64, 64, 32, 17, 64, 32, 64, 64]

  // ---------------------------------------------------------------------
  // Decimal numbers
  // ---------------------------------------------------------------------

  function Digit(d: nat): char
    requires d < 10
  {
    '0' + d as char
  }

  predicate IsDigit(c: char) {
    '0' <= c <= '9'
  }

  function Decimal(n: nat): (s: string)
    ensures |s| > 0 && forall i | 0 <= i < |s| :: IsDigit(s[i])
  {
    if n < 10 then [Digit(n)] else Decimal(n / 10) + [Digit(n % 10)]
  }

  /** The number at the start of `s`, in 32 bits, after `n` was read. */
  function Number(n: nat, s: string): nat
    decreases |s|
  {
    if s == [] || !IsDigit(s[0]) then n else Number((n * 10 + (s[0] - '0') as nat) % WORD, s[1..])
  }

  lemma {:induction false} NumberAppend(n: nat, s: string, d: nat)
    requires d < 10 && forall i | 0 <= i < |s| :: IsDigit(s[i])
    ensures Number(n, s + [Digit(d)]) == (Number(n, s) * 10 + d) % WORD
    decreases |s|
  {
    var t := s + [Digit(d)];
    if s != [] {
      assert t[1..] == s[1..] + [Digit(d)];
      NumberAppend((n * 10 + (s[0] - '0') as nat) % WORD, s[1..], d);
    } else {
      assert t == [Digit(d)] && t[1..] == [];
    }
  }

  /** Reading back a printed number gives its low 32 bits. */
  lemma {:induction false} NumberDecimal(n: nat)
    ensures Number(0, Decimal(n)) == n % WORD
  {
    if n < 10 {
      NumberAppend(0, [], n);
      assert [] + [Digit(n)] == [Digit(n)];
    } else {
      NumberDecimal(n / 10);
      NumberAppend(0, Decimal(n / 10), n % 10);
      ModTen(n);
    }
  }

  lemma {:induction false} NumberUntil(n: nat, s: string, rest: string)
    requires (forall i | 0 <= i < |s| :: IsDigit(s[i])) && (rest == [] || !IsDigit(rest[0]))
    ensures Number(n, s + rest) == Number(n, s)
    decreases |s|
  {
    if s == [] {
      assert s + rest == rest;
    } else {
      assert (s + rest)[1..] == s[1..] + rest;
      NumberUntil((n * 10 + (s[0] - '0') as nat) % WORD, s[1..], rest);
    }
  }

  /** A number is read up to the first character that is no digit; a text that does
      not begin with one counts as 0. */
  lemma NumberThenText(n: nat, rest: string)
    requires rest == [] || !IsDigit(rest[0])
    ensures Number(0, Decimal(n) + rest) == n % WORD && Number(0, rest) == 0
  {
    NumberUntil(0, Decimal(n), rest);
    NumberDecimal(n);
  }

  lemma ModTen(n: nat)
    ensures ((n / 10 % WORD) * 10 + n % 10) % WORD == n % WORD
  {
    var m := n / 10;
    var q := m / WORD;
    assert m == q * WORD + m % WORD;
    assert n == m * 10 + n % 10;
    assert n == (q * 10) * WORD + ((m % WORD) * 10 + n % 10);
  }

  lemma {:induction false} DecimalShort(n: nat, k: nat, bound: nat)
    requires n < bound && k > 0 && bound == Power10(k)
    ensures |Decimal(n)| <= k
    decreases k
  {
    if n >= 10 {
      DecimalShort(n / 10, k - 1, Power10(k - 1));
    }
  }

  function Power10(k: nat): nat {
    if k == 0 then 1 else 10 * Power10(k - 1)
  }

  lemma WordShort(n: nat)
    requires n < WORD
    ensures |Decimal(n)| <= 10
  {
    assert Power10(5) == 100000 by {
      assert Power10(3) == 1000;
    }
    assert Power10(10) == 1_00000_00000 by {
      assert Power10(8) == 1000 * Power10(5);
    }
    DecimalShort(n, 10, Power10(10));
  }

  /** uint_to_str. */
  method UintToStr(n: nat) returns (s: string)
    ensures s == Decimal(n)
  {
    if n == 0 {
      assert "0" == [Digit(0)];
      return "0";
    }
    var tmp, m: nat := [], n;
    ghost var all := Decimal(n);
    while m > 0
      invariant |all| == |tmp| + (if m > 0 then |Decimal(m)| else 0)
      invariant m > 0 ==> all[..|Decimal(m)|] == Decimal(m)
      invariant forall k | 0 <= k < |tmp| :: tmp[k] == all[|all| - 1 - k]
    {
      assert m >= 10 ==> Decimal(m)[..|Decimal(m / 10)|] == Decimal(m / 10);
      tmp := tmp + [Digit(m % 10)];
      m := m / 10;
    }
    s := [];
    for j := 0 to |tmp|
      invariant s == all[..j]
    {
      s := s + [tmp[|tmp| - 1 - j]];
    }
  }

  /** str_to_uint. */
  method StrToUint(s: string) returns (n: nat)
    ensures n == Number(0, s)
  {
    n := 0;
    var i := 0;
    while i < |s| && IsDigit(s[i])
      invariant i <= |s| && Number(n, s[i..]) == Number(0, s)
    {
      assert s[i..][1..] == s[i + 1..];
      n := (n * 10 + (s[i] - '0') as nat) % WORD;
      i := i + 1;
    }
  }

  // ---------------------------------------------------------------------
  // Lines
  // ---------------------------------------------------------------------

  predicate Stops(c: char) {
    c == ':' || c == '\n'
  }

  /** Text that can stand in a field. */
  predicate Clean(s: string) {
    forall i | 0 <= i < |s| :: !Stops(s[i]) && s[i] != NUL
  }

  /** How far the first field of `s` reaches. */
  function FieldLength(s: string, max: nat): (n: nat)
    requires max > 0
    ensures n <= |s| && n <= max - 1
  {
    if s == [] || Stops(s[0]) || max == 1 then 0 else 1 + FieldLength(s[1..], max - 1)
  }

  /** A field reaches up to a colon, a line end or the end of the text, or as far as its
      buffer does. */
  lemma {:induction false} FieldExact(s: string, max: nat)
    requires max > 0
    ensures var n := FieldLength(s, max);
            && (forall i | 0 <= i < n :: s[i] != ':' && s[i] != '\n')
            && (n == |s| || s[n] == ':' || s[n] == '\n' || n == max - 1)
    decreases |s|
  {
    if s != [] && !Stops(s[0]) && max > 1 {
      FieldExact(s[1..], max - 1);
    }
  }

  function AfterField(s: string, n: nat): string
    requires n <= |s|
  {
    if n < |s| && s[n] == ':' then s[n + 1..] else s[n..]
  }

  /** The fields of a line, as many as there are sizes. */
  function FieldsOf(s: string, sizes: seq<nat>): (f: seq<string>)
    requires forall i | 0 <= i < |sizes| :: sizes[i] > 0
    ensures |f| == |sizes|
    decreases |sizes|
  {
    if sizes == [] then []
    else
      var n := FieldLength(s, sizes[0]);
      [s[..n]] + FieldsOf(AfterField(s, n), sizes[1..])
  }

  /** Fields with colons between them. */
  function Join(fields: seq<string>): string {
    if fields == [] then [] else if |fields| == 1 then fields[0] else fields[0] + ":" + Join(fields[1..])
  }

  lemma {:induction false} FieldClean(f: string, rest: string, max: nat)
    requires Clean(f) && |f| < max && (rest == [] || Stops(rest[0]))
    ensures FieldLength(f + rest, max) == |f|
    decreases |f|
  {
    if f == [] {
      assert f + rest == rest;
    } else {
      assert (f + rest)[1..] == f[1..] + rest;
      FieldClean(f[1..], rest, max - 1);
    }
  }

  predicate AllClean(fields: seq<string>, sizes: seq<nat>) {
    |fields| == |sizes| && forall i | 0 <= i < |fields| :: Clean(fields[i]) && |fields[i]| < sizes[i]
  }

  /** Splitting what was joined. */
  lemma {:induction false} FieldsJoin(fields: seq<string>, sizes: seq<nat>)
    requires AllClean(fields, sizes)
    ensures FieldsOf(Join(fields), sizes) == fields
    decreases |fields|
  {
    hide FieldsOf, FieldLength, Clean;
    FieldsNone(Join([]));
    if |fields| == 1 {
      FirstField(fields[0], [], sizes);
      assert fields[0] + [] == fields[0] == Join(fields);
      assert sizes[1..] == [] && fields == [fields[0]];
    } else if |fields| > 1 {
      var f, rest := fields[0], ":" + Join(fields[1..]);
      assert Join(fields) == f + rest;
      FirstField(f, rest, sizes);
      assert rest[1..] == Join(fields[1..]);
      FieldsJoin(fields[1..], sizes[1..]);
      assert fields == [f] + fields[1..];
    }
  }

  lemma FieldsNone(s: string)
    ensures FieldsOf(s, []) == []
  {
  }

  lemma FirstField(f: string, rest: string, sizes: seq<nat>)
    requires sizes != [] && (forall i | 0 <= i < |sizes| :: sizes[i] > 0) && Clean(f) && |f| < sizes[0]
    requires rest == [] || rest[0] == ':'
    ensures FieldsOf(f + rest, sizes) == [f] + FieldsOf(if rest == [] then [] else rest[1..], sizes[1..])
  {
    hide FieldLength;
    FieldClean(f, rest, sizes[0]);
    assert (f + rest)[..|f|] == f;
    if rest == [] {
      assert (f + rest)[|f|..] == [];
    } else {
      assert (f + rest)[|f| + 1..] == rest[1..];
    }
  }

  lemma {:induction false} JoinOneLine(fields: seq<string>, sizes: seq<nat>)
    requires AllClean(fields, sizes)
    ensures forall i | 0 <= i < |Join(fields)| :: Join(fields)[i] != '\n' && Join(fields)[i] != NUL
    decreases |fields|
  {
    if |fields| > 1 {
      JoinOneLine(fields[1..], sizes[1..]);
    }
  }

  // ---------------------------------------------------------------------
  // The database
  // ---------------------------------------------------------------------

  function Flag(b: bool): string {
    if b then "1" else "0"
  }

  function FieldsFor(u: User): (f: seq<string>)
    ensures |f| == 8
  {
    [Decimal(u.uid), Decimal(u.gid), u.name, u.hash, u.home, u.shell, Flag(u.active), Flag(u.locked)]
  }

  function PrintUser(u: User): string {
    Join(FieldsFor(u)) + "\n"
  }

  function Print(users: seq<User>): string {
    if users == [] then [] else Print(users[..|users| - 1]) + PrintUser(users[|users| - 1])
  }

  function UserOf(f: seq<string>): User
    requires |f| == 8
  {
    User(Number(0, f[0]), Number(0, f[1]), f[2], f[3], f[4], f[5], IsOne(f[6]), IsOne(f[7]))
  }

  predicate IsOne(s: string) {
    s != [] && s[0] == '1'
  }

  function LineLength(s: string): (n: nat)
    ensures n <= |s| && (forall i | 0 <= i < n :: s[i] != '\n') && (n < |s| ==> s[n] == '\n')
  {
    if s == [] || s[0] == '\n' then 0 else 1 + LineLength(s[1..])
  }

  function AfterLine(s: string): (t: string)
    ensures s != [] ==> |t| < |s|
  {
    var n := LineLength(s);
    if n < |s| then s[n + 1..] else []
  }

  /** The accounts that a text describes, after those already read. */
  function Parse(s: string, users: seq<User>): seq<User>
    decreases |s|
  {
    if s == [] || |users| >= USERS_MAX then users
    else if LineLength(s) == 0 then Parse(AfterLine(s), users)
    else
      var u := UserOf(FieldsOf(s[..LineLength(s)], SIZES));
      Parse(AfterLine(s), if u.name != [] then users + [u] else users)
  }

  /** The lines of a text. */
  function Lines(s: string): seq<string>
    decreases |s|
  {
    if s == [] then [] else [s[..LineLength(s)]] + Lines(AfterLine(s))
  }

  function Account(line: string): User {
    hide FieldsOf;
    UserOf(FieldsOf(line, SIZES))
  }

  /** A line that describes an account: neither blank nor without a name. */
  predicate Named(line: string) {
    line != [] && Account(line).name != []
  }

  /** The accounts of some lines. */
  function Described(lines: seq<string>): seq<User> {
    if lines == [] then []
    else (if Named(lines[0]) then [Account(lines[0])] else []) + Described(lines[1..])
  }

  /** Of the accounts that the lines describe, parsing takes the first 16; blank
      lines and lines without a name are passed over wherever they stand. */
  lemma {:induction false} ParseLines(s: string, users: seq<User>)
    requires |users| <= USERS_MAX
    ensures var all := users + Described(Lines(s));
            Parse(s, users) == if |all| <= USERS_MAX then all else all[..USERS_MAX]
    decreases |s|
  {
    hide FieldsOf, UserOf, LineLength, AfterLine;
    if s == [] {
      assert users + [] == users;
    } else if |users| >= USERS_MAX {
      assert (users + Described(Lines(s)))[..USERS_MAX] == users;
    } else {
      var line, rest := s[..LineLength(s)], AfterLine(s);
      var one := if Named(line) then [Account(line)] else [];
      assert Lines(s)[1..] == Lines(rest);
      assert users + (one + Described(Lines(rest))) == (users + one) + Described(Lines(rest));
      assert one == [] ==> users + one == users;
      ParseLines(rest, users + one);
    }
  }

  /** An account that the database can hold. */
  predicate Storable(u: User) {
    && u.uid < WORD && u.gid < WORD && u.name != []
    && Clean(u.name) && Clean(u.hash) && Clean(u.home) && Clean(u.shell)
    && |u.name| < 32 && |u.hash| < 17 && |u.home| < 64 && |u.shell| < 32
  }

  lemma FieldsClean(u: User)
    requires Storable(u)
    ensures AllClean(FieldsFor(u), SIZES)
  {
    WordShort(u.uid);
    WordShort(u.gid);
  }

  lemma UserRoundTrip(u: User)
    requires Storable(u)
    ensures UserOf(FieldsOf(Join(FieldsFor(u)), SIZES)) == u
  {
    hide FieldsOf, Join, Number, Decimal, Clean, AllClean;
    FieldsClean(u);
    FieldsJoin(FieldsFor(u), SIZES);
    NumberDecimal(u.uid);
    NumberDecimal(u.gid);
  }

  lemma {:induction false} LineEnd(s: string, rest: string)
    requires forall i | 0 <= i < |s| :: s[i] != '\n'
    ensures LineLength(s + "\n" + rest) == |s| && AfterLine(s + "\n" + rest) == rest
  {
    var t := s + "\n" + rest;
    assert t[|s|] == '\n';
    assert LineLength(t) == |s|;
    assert t[|s| + 1..] == rest;
  }

  /** One printed line is read back as its account. */
  lemma ParseOne(u: User, rest: string, users: seq<User>)
    requires Storable(u) && |users| < USERS_MAX
    ensures Parse(PrintUser(u) + rest, users) == Parse(rest, users + [u])
  {
    hide FieldsOf, Join, Storable, UserOf;
    var line := Join(FieldsFor(u));
    FieldsClean(u);
    JoinOneLine(FieldsFor(u), SIZES);
    UserRoundTrip(u);
    LineEnd(line, rest);
    var t := line + "\n" + rest;
    assert PrintUser(u) + rest == t;
    assert t[..|line|] == line;
    NonEmpty(u);
  }

  lemma NonEmpty(u: User)
    requires Storable(u)
    ensures u.name != [] && Join(FieldsFor(u)) != []
  {
    assert Join(FieldsFor(u)) == Decimal(u.uid) + ":" + Join(FieldsFor(u)[1..]);
  }

  lemma {:induction false} ParsePrintFrom(users: seq<User>, n: nat, rest: string)
    requires n <= |users| <= USERS_MAX && forall i | 0 <= i < |users| :: Storable(users[i])
    ensures Parse(Print(users[..n]) + rest, []) == Parse(rest, users[..n])
    decreases n
  {
    hide Parse, PrintUser, Storable;
    if n == 0 {
      assert Print(users[..0]) + rest == rest;
    } else {
      var u := users[n - 1];
      assert users[..n][..n - 1] == users[..n - 1];
      assert Print(users[..n]) + rest == Print(users[..n - 1]) + (PrintUser(u) + rest);
      ParsePrintFrom(users, n - 1, PrintUser(u) + rest);
      ParseOne(u, rest, users[..n - 1]);
      assert users[..n - 1] + [u] == users[..n];
    }
  }

  /** The round trip: parsing what was printed gives the same accounts. */
  lemma ParsePrint(users: seq<User>)
    requires |users| <= USERS_MAX && forall i | 0 <= i < |users| :: Storable(users[i])
    ensures Parse(Print(users), []) == users
  {
    ParsePrintFrom(users, |users|, []);
    assert users[..|users|] == users;
    assert Print(users) + [] == Print(users);
  }

  // ---------------------------------------------------------------------
  // Buffers
  // ---------------------------------------------------------------------

  /** No other length is. */
  lemma {:induction false} FieldUnique(s: string, max: nat, n: nat)
    requires n <= |s| && n < max && (forall i | 0 <= i < n :: !Stops(s[i]))
    requires n == |s| || Stops(s[n]) || n == max - 1
    ensures FieldLength(s, max) == n
    decreases n
  {
    if n > 0 {
      FieldUnique(s[1..], max - 1, n - 1);
    }
  }

  /** The copying loop of next_field. */
  method ScanField(buf: array<char>, p: nat, max: nat) returns (out: string)
    requires 0 < max && p < buf.Length && buf[buf.Length - 1] == NUL
    ensures |out| < max && p + |out| < buf.Length && out == buf[p..p + |out|]
    ensures forall i | p <= i < p + |out| :: buf[i] != NUL && buf[i] != ':' && buf[i] != '\n'
    ensures buf[p + |out|] in {NUL, ':', '\n'} || |out| == max - 1
  {
    out := [];
    while buf[p + |out|] != NUL && buf[p + |out|] != ':' && buf[p + |out|] != '\n' && |out| < max - 1
      invariant p + |out| < buf.Length && |out| <= max - 1 && out == buf[p..p + |out|]
      invariant forall i | p <= i < p + |out| :: buf[i] != NUL && buf[i] != ':' && buf[i] != '\n'
      decreases max - |out|
    {
      out := out + [buf[p + |out|]];
    }
  }

  /** next_field: the field at `p`, and the position after it. */
  method NextField(buf: array<char>, p: nat, max: nat) returns (out: string, q: nat)
    requires 0 < max && p < buf.Length && buf[buf.Length - 1] == NUL
    ensures p <= q < buf.Length
    ensures out == CString(buf[..], p)[..FieldLength(CString(buf[..], p), max)]
    ensures CString(buf[..], q) == AfterField(CString(buf[..], p), FieldLength(CString(buf[..], p), max))
    ensures |out| < max && p + |out| < buf.Length && out == buf[p..p + |out|]
    ensures forall i | p <= i < p + |out| :: buf[i] != NUL && buf[i] != ':' && buf[i] != '\n'
    ensures buf[p + |out|] in {NUL, ':', '\n'} || |out| == max - 1
    ensures q == p + |out| + if buf[p + |out|] == ':' then 1 else 0
  {
    hide CString, FieldLength;
    ghost var s := CString(buf[..], p);
    out := ScanField(buf, p, max);
    q := p + |out|;
    CStringFirst(buf[..], p, |out|);
    FieldUnique(s, max, |out|);
    if buf[q] == ':' {
      CStringFrom(buf[..], p, |out| + 1);
      q := q + 1;
    }
  }

  /** The fields of the line at `p`, one per size. */
  method ReadFields(buf: array<char>, p: nat, sizes: seq<nat>) returns (fields: seq<string>)
    requires p < buf.Length && buf[buf.Length - 1] == NUL && forall i | 0 <= i < |sizes| :: sizes[i] > 0
    ensures fields == FieldsOf(CString(buf[..], p), sizes)
  {
    hide CString, FieldLength, AfterField;
    var q: nat := p;
    fields := [];
    assert sizes[0..] == sizes;
    for k := 0 to |sizes|
      invariant q < buf.Length && |fields| == k
      invariant fields + FieldsOf(CString(buf[..], q), sizes[k..]) == FieldsOf(CString(buf[..], p), sizes)
    {
      ghost var s := CString(buf[..], q);
      var out;
      out, q := NextField(buf, q, sizes[k]);
      assert sizes[k..][1..] == sizes[k + 1..];
      ghost var rest := FieldsOf(CString(buf[..], q), sizes[k + 1..]);
      assert FieldsOf(s, sizes[k..]) == [out] + rest;
      assert fields + ([out] + rest) == (fields + [out]) + rest;
      fields := fields + [out];
    }
  }

  /** Whether the first line of `s` goes on at `n`. */
  lemma LineGoesOn(s: string, n: nat)
    requires n <= |s|
    ensures LineLength(s[n..]) == if n == |s| || s[n] == '\n' then 0 else 1 + LineLength(s[n + 1..])
  {
    assert n < |s| ==> s[n..][1..] == s[n + 1..];
  }

  /** The end of the line at `p`. */
  method LineEndAt(buf: array<char>, p: nat) returns (q: nat)
    requires p < buf.Length && buf[buf.Length - 1] == NUL
    ensures q < buf.Length && q == p + LineLength(CString(buf[..], p))
    ensures buf[q] == NUL <==> LineLength(CString(buf[..], p)) == |CString(buf[..], p)|
  {
    hide CString, LineLength;
    ghost var s := CString(buf[..], p);
    CStringLength(buf[..], p);
    q := p;
    assert s[0..] == s;
    while buf[q] != NUL && buf[q] != '\n'
      invariant p <= q < buf.Length && q - p <= |s|
      invariant LineLength(s) == q - p + LineLength(s[q - p..])
      decreases buf.Length - q
    {
      LineGoesOn(s, q - p);
      q := q + 1;
    }
    LineGoesOn(s, q - p);
  }

  /** The line at `p` becomes a string of its own; `q` is where the next starts. */
  method CutLine(buf: array<char>, p: nat) returns (q: nat)
    requires p < buf.Length && buf[buf.Length - 1] == NUL && buf[p] != NUL
    modifies buf
    ensures p < q < buf.Length && buf[buf.Length - 1] == NUL
    ensures var s := old(CString(buf[..], p));
            s != [] && CString(buf[..], p) == s[..LineLength(s)] && CString(buf[..], q) == AfterLine(s)
  {
    hide CString;
    ghost var b := buf[..];
    ghost var s := CString(b, p);
    CStringLength(b, p);
    q := LineEndAt(buf, p);
    CStringFrom(b, p, q - p);
    if buf[q] == '\n' {
      CStringCut(b, p, q - p);
      CStringFrom(b, p, q + 1 - p);
      buf[q] := NUL;
      assert buf[..] == b[q := NUL];
      q := q + 1;
      CStringSame(b, buf[..], q);
    } else {
      assert s[..LineLength(s)] == s && AfterLine(s) == [];
    }
  }

  method MakeUser(fields: seq<string>) returns (u: User)
    requires |fields| == 8
    ensures u == UserOf(fields)
    ensures u.name == fields[2] && u.hash == fields[3] && u.home == fields[4] && u.shell == fields[5]
    ensures u.active <==> fields[6] != [] && fields[6][0] == '1'
    ensures u.locked <==> fields[7] != [] && fields[7][0] == '1'
  {
    var uid := StrToUint(fields[0]);
    var gid := StrToUint(fields[1]);
    return User(uid, gid, fields[2], fields[3], fields[4], fields[5], IsOne(fields[6]), IsOne(fields[7]));
  }

  /** load_db on the text in the buffer. Lines are cut off in place. */
  method Load(buf: array<char>, users: seq<User>) returns (loaded: seq<User>)
    requires 0 < buf.Length && buf[buf.Length - 1] == NUL
    modifies buf
    ensures loaded == Parse(old(CString(buf[..], 0)), users)
  {
    hide CString, FieldsOf, UserOf, LineLength, AfterLine;
    var line := 0;
    loaded := users;
    while buf[line] != NUL && |loaded| < USERS_MAX
      invariant line < buf.Length && buf[buf.Length - 1] == NUL
      invariant Parse(CString(buf[..], line), loaded) == Parse(old(CString(buf[..], 0)), users)
      decreases buf.Length - line
    {
      var next := CutLine(buf, line);
      CStringEmpty(buf[..], line);
      if buf[line] != NUL {
        var fields := ReadFields(buf, line, SIZES);
        var u := MakeUser(fields);
        if u.name != [] {
          loaded := loaded + [u];
        }
      }
      line := next;
    }
    CStringEmpty(buf[..], line);
  }

  // ---------------------------------------------------------------------
  // Saving
  // ---------------------------------------------------------------------

  /** The pieces of a line, each field with what follows it. */
  function Pieces(fields: seq<string>): seq<string> {
    if fields == [] then []
    else if |fields| == 1 then [fields[0], "\n"]
    else [fields[0], ":"] + Pieces(fields[1..])
  }

  function Flat(ps: seq<string>): string {
    if ps == [] then [] else ps[0] + Flat(ps[1..])
  }

  lemma {:induction false} FlatAppend(ps: seq<string>, qs: seq<string>)
    ensures Flat(ps + qs) == Flat(ps) + Flat(qs)
  {
    if ps == [] {
      assert ps + qs == qs;
    } else {
      FlatAppend(ps[1..], qs);
      assert (ps + qs)[1..] == ps[1..] + qs;
      assert ps[0] + (Flat(ps[1..]) + Flat(qs)) == (ps[0] + Flat(ps[1..])) + Flat(qs);
    }
  }

  lemma {:induction false} PiecesJoin(fields: seq<string>)
    requires fields != []
    ensures Flat(Pieces(fields)) == Join(fields) + "\n"
  {
    if |fields| == 1 {
      FlatPair(fields[0], "\n", []);
      assert [fields[0], "\n"] + [] == Pieces(fields);
      assert fields[0] + "\n" + [] == fields[0] + "\n";
    } else {
      PiecesJoin(fields[1..]);
      FlatPair(fields[0], ":", Pieces(fields[1..]));
      assert fields[0] + ":" + (Join(fields[1..]) + "\n") == Join(fields) + "\n";
    }
  }

  lemma FlatPair(a: string, b: string, rest: seq<string>)
    ensures Flat([a, b] + rest) == a + b + Flat(rest)
  {
    FlatAppend([a, b], rest);
    assert [a, b][1..] == [b] && [b][1..] == [];
    assert Flat([b]) == b + [] == b;
  }

  lemma FlatStep(ps: seq<string>, k: nat)
    requires k < |ps|
    ensures Flat(ps[..k + 1]) == Flat(ps[..k]) + ps[k]
    ensures |Flat(ps[..k])| + |ps[k]| <= |Flat(ps)|
  {
    hide Flat;
    assert ps[..k + 1] == ps[..k] + [ps[k]];
    FlatAppend(ps[..k], [ps[k]]);
    FlatOne(ps[k]);
    assert ps == ps[..k + 1] + ps[k + 1..];
    FlatAppend(ps[..k + 1], ps[k + 1..]);
  }

  lemma FlatOne(a: string)
    ensures Flat([a]) == a
  {
  }

  lemma {:induction false} PrintGrows(users: seq<User>, n: nat)
    requires n <= |users|
    ensures |Print(users[..n])| <= |Print(users)|
  {
    hide PrintUser;
    if n < |users| {
      PrintGrows(users[..|users| - 1], n);
      assert users[..|users| - 1][..n] == users[..n];
    } else {
      assert users[..n] == users;
    }
  }

  /** users_save: the text in the buffer. All of it, if it fits. */
  method Save(users: seq<User>) returns (text: string)
    ensures |text| < BUFFER - 1
    ensures |Print(users)| < BUFFER - 1 ==> text == Print(users)
  {
    hide Join, PrintUser, Flat, Pieces;
    text := [];
    for i := 0 to |users|
      invariant |text| < BUFFER - 1
      invariant |Print(users)| < BUFFER - 1 ==> text == Print(users[..i])
    {
      var u := users[i];
      var uid := UintToStr(u.uid);
      var gid := UintToStr(u.gid);
      var pieces := Pieces([uid, gid, u.name, u.hash, u.home, u.shell, Flag(u.active), Flag(u.locked)]);
      PrintGrows(users, i + 1);
      assert users[..i + 1][..i] == users[..i];
      LinePieces(u);
      text := Append(text, pieces);
    }
    assert users[..|users|] == users;
  }

  lemma LinePieces(u: User)
    ensures Flat(Pieces(FieldsFor(u))) == PrintUser(u)
  {
    PiecesJoin(FieldsFor(u));
  }

  /** The pieces go into the buffer up to the first that has no room. */
  method Append(before: string, pieces: seq<string>) returns (text: string)
    requires |before| < BUFFER - 1
    ensures |text| < BUFFER - 1
    ensures |before| + |Flat(pieces)| < BUFFER - 1 ==> text == before + Flat(pieces)
  {
    hide Flat;
    text := before;
    var k := 0;
    FlatNone();
    while k < |pieces|
      invariant k <= |pieces| && |text| < BUFFER - 1
      invariant text == before + Flat(pieces[..k])
    {
      FlatStep(pieces, k);
      if |text| + |pieces[k]| >= BUFFER - 1 {
        break;
      }
      text := text + pieces[k];
      k := k + 1;
    }
    assert pieces[..|pieces|] == pieces;
  }

  lemma FlatNone()
    ensures Flat([]) == []
  {
  }

  /** The most that the fields of a storable account take up, with the character
      behind each. */
  const BOUNDS: seq<nat> := [11, 11, 32, 17, 64, 32, 2, 2]

  function Sum(s: seq<nat>): nat {
    if s == [] then 0 else s[0] + Sum(s[1..])
  }

  lemma {:induction false} JoinShort(fields: seq<string>, bounds: seq<nat>)
    requires AllClean(fields, bounds) && fields != []
    ensures |Join(fields)| + 1 <= Sum(bounds)
    decreases |fields|
  {
    if |fields| > 1 {
      JoinShort(fields[1..], bounds[1..]);
    } else {
      assert bounds[1..] == [];
    }
  }

  lemma BoundsSum()
    ensures Sum(BOUNDS) == 171
  {
    assert BOUNDS[1..] == [11, 32, 17, 64, 32, 2, 2] && BOUNDS[1..][1..] == [32, 17, 64, 32, 2, 2];
    assert [32, 17, 64, 32, 2, 2][1..] == [17, 64, 32, 2, 2] && [17, 64, 32, 2, 2][1..] == [64, 32, 2, 2];
    assert [64, 32, 2, 2][1..] == [32, 2, 2] && [32, 2, 2][1..] == [2, 2] && [2, 2][1..] == [2] && [2][1..] == [];
    assert Sum([32, 2, 2]) == 36;
    assert Sum([17, 64, 32, 2, 2]) == 117;
  }

  lemma FieldsBounded(u: User)
    requires Storable(u)
    ensures AllClean(FieldsFor(u), BOUNDS)
  {
    FieldsClean(u);
    WordShort(u.uid);
    WordShort(u.gid);
  }

  lemma LineShort(u: User)
    requires Storable(u)
    ensures |PrintUser(u)| <= 171
  {
    hide Join, Decimal, Sum, AllClean, Clean;
    FieldsBounded(u);
    BoundsSum();
    JoinShort(FieldsFor(u), BOUNDS);
  }

  /** A full table of storable accounts always fits the buffer. */
  lemma {:induction false} PrintFits(users: seq<User>)
    requires forall i | 0 <= i < |users| :: Storable(users[i])
    ensures |Print(users)| <= 171 * |users|
    ensures |users| <= USERS_MAX ==> |Print(users)| < BUFFER - 1
  {
    hide PrintUser, Storable;
    if users != [] {
      PrintFits(users[..|users| - 1]);
      LineShort(users[|users| - 1]);
    }
  }

  /** Saving and loading again: the same accounts. */
  method SaveAndLoad(users: seq<User>) returns (loaded: seq<User>)
    requires |users| <= USERS_MAX && (forall i | 0 <= i < |users| :: Storable(users[i]))
    ensures loaded == users
  {
    hide Parse, Print, Storable, CString;
    PrintFits(users);
    var text := Save(users);
    var buf := new char[|text| + 1](i requires 0 <= i <= |text| => if i < |text| then text[i] else NUL);
    assert buf[..] == text + seq(1, _ => NUL);
    PrintClean(users);
    CStringPadded(text, 1, 0);
    ParsePrint(users);
    loaded := Load(buf, []);
  }

  lemma {:induction false} PrintClean(users: seq<User>)
    requires forall i | 0 <= i < |users| :: Storable(users[i])
    ensures forall i | 0 <= i < |Print(users)| :: Print(users)[i] != NUL
  {
    if users != [] {
      PrintClean(users[..|users| - 1]);
      FieldsClean(users[|users| - 1]);
      JoinOneLine(FieldsFor(users[|users| - 1]), SIZES);
    }
  }
}
