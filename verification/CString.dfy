/** Two string functions of src/c/lib.c. A C string is an array with a NUL behind its text. */
module CString {
  import opened MachineInts

  /** The text from position `a` up to the first NUL. */
  function TextAt(buf: seq<char>, a: nat): string
    decreases |buf| - a
  {
    if a >= |buf| || buf[a] == '\0' then "" else [buf[a]] + TextAt(buf, a + 1)
  }

  /** The first position of `c` from `a` on, or the length. */
  function Next(s: string, c: char, a: nat): (p: nat)
    requires a <= |s|
    ensures a <= p <= |s| && (p < |s| ==> s[p] == c)
    ensures forall i :: a <= i < p ==> s[i] != c
    decreases |s| - a
  {
    if a == |s| || s[a] == c then a else Next(s, c, a + 1)
  }

  /** The message without one separator at its end. */
  function Body(s: string, c: char): string {
    if s != "" && s[|s| - 1] == c then s[..|s| - 1] else s
  }

  /** The fields of `s` from position `a` on, a last separator with nothing behind it left aside. */
  function Fields(s: string, c: char, a: nat): (f: seq<string>)
    requires a <= |s|
    ensures f != []
    decreases |s| - a
  {
    var p := Next(s, c, a);
    if p + 1 >= |s| then [s[a..p]] else [s[a..p]] + Fields(s, c, p + 1)
  }

  function Join(f: seq<string>, c: char): string {
    if f == [] then "" else if |f| == 1 then f[0] else f[0] + [c] + Join(f[1..], c)
  }

  lemma JoinCons(x: string, f: seq<string>, c: char)
    requires f != []
    ensures Join([x] + f, c) == x + [c] + Join(f, c)
  {
    assert ([x] + f)[1..] == f;
  }

  /** What a field and its separator, or the last field, is of the body. */
  lemma BodyFrom(s: string, c: char, a: nat, p: nat)
    requires a <= p <= |s| && (a < |s| || s == "" || s[|s| - 1] != c) && (p < |s| ==> s[p] == c)
    requires p + 1 >= |s| ==> forall i :: a <= i < p ==> s[i] != c
    ensures |s| - 1 <= |Body(s, c)| <= |s| && a <= |Body(s, c)|
    ensures p + 1 < |s| ==> s[a..p] + [c] + Body(s, c)[p + 1..] == Body(s, c)[a..]
    ensures p + 1 >= |s| ==> s[a..p] == Body(s, c)[a..]
  {
    if p + 1 < |s| {
      assert s[a..p] + [c] + Body(s, c)[p + 1..] == Body(s, c)[a..];
    } else if p + 1 == |s| {
      assert Body(s, c) == s[..p] && s[..p][a..] == s[a..p];
    } else {
      assert Body(s, c) == s;
    }
  }

  /** Joining the fields rebuilds the message up to that separator. */
  lemma {:induction false} JoinFields(s: string, c: char, a: nat)
    requires a <= |s| && (a < |s| || s == "" || s[|s| - 1] != c)
    ensures Join(Fields(s, c, a), c) == Body(s, c)[a..]
    decreases |s| - a
  {
    hide Body, Next;
    var p := Next(s, c, a);
    BodyFrom(s, c, a, p);
    if p + 1 >= |s| {
      assert Fields(s, c, a) == [s[a..p]];
    } else {
      JoinFields(s, c, p + 1);
      JoinCons(s[a..p], Fields(s, c, p + 1), c);
    }
  }

  /** No field has the separator in it. */
  lemma {:induction false} FieldsPlain(s: string, c: char, a: nat, i: nat)
    requires a <= |s| && i < |Fields(s, c, a)|
    ensures c !in Fields(s, c, a)[i]
    decreases |s| - a
  {
    var p := Next(s, c, a);
    if p + 1 >= |s| || i == 0 {
    } else {
      FieldsPlain(s, c, p + 1, i - 1);
    }
  }

  predicate NextFrom(s: string, c: char, a: nat, p: nat) {
    a <= p <= |s| && Next(s, c, a) == Next(s, c, p)
  }

  /** `strchr(arg, c)` on an array whose text ends at `n`. */
  method StrChr(msg: array<char>, a: nat, n: nat, c: char, ghost s: string) returns (p: nat)
    requires a <= n == |s| < msg.Length && msg[a..n] == s[a..]
    ensures p == Next(s, c, a)
  {
    p := a;
    assert NextFrom(s, c, a, p);
    while p < n && msg[p] != c
      invariant a <= p <= n && NextFrom(s, c, a, p)
    {
      assert msg[p] == msg[a..n][p - a] == s[a..][p - a] == s[p];
      p := p + 1;
    }
    if p < n { assert msg[p] == msg[a..n][p - a] == s[a..][p - a] == s[p]; }
  }

  /** The text at the start of a stretch without NUL that has a NUL behind it. */
  lemma {:induction false} TextIs(buf: seq<char>, a: nat, p: nat)
    requires a <= p < |buf| && buf[p] == '\0' && forall i :: a <= i < p ==> buf[i] != '\0'
    ensures TextAt(buf, a) == buf[a..p]
    decreases p - a
  {
    if a == p {
    } else {
      TextIs(buf, a + 1, p);
      assert buf[a..p] == [buf[a]] + buf[a + 1..p];
    }
  }

  /** The buffer when the separators before `a` are overwritten. */
  ghost predicate Cut(buf: seq<char>, s: string, c: char, a: nat) {
    && a <= |s| < |buf| && buf[|s|] == '\0'
    && (forall i :: 0 <= i < a ==> buf[i] == if s[i] == c then '\0' else s[i])
    && (forall i :: a <= i < |s| ==> buf[i] == s[i])
  }

  /** A field that starts at `a` is a string of its own once the separator behind it is overwritten. */
  lemma FieldText(buf: seq<char>, s: string, c: char, a: nat, b: nat)
    requires Cut(buf, s, c, b) && a <= |s| && '\0' !in s
    requires Next(s, c, a) < b || Next(s, c, a) == |s|
    ensures TextAt(buf, a) == s[a..Next(s, c, a)]
  {
    var p := Next(s, c, a);
    forall i | a <= i < p ensures buf[i] == s[i] && buf[i] != '\0' { assert s[i] in s; }
    TextIs(buf, a, p);
  }

  /** The fields up to position `a` are `f[..k]`, and the rest are those from `a` on. */
  ghost predicate Splitting(f: seq<string>, s: string, c: char, a: nat, k: nat) {
    k <= |f| && a <= |s| && f[k..] == Fields(s, c, a)
  }

  /** The first `k` arguments are the first `k` fields, once the separators before `a` are overwritten, and
      stay so. */
  ghost predicate Argued(argv: seq<nat>, f: seq<string>, s: string, c: char, a: nat, k: nat) {
    k <= |f| && k <= |argv| && forall i :: 0 <= i < k ==>
      && argv[i] <= |s| && s[argv[i]..Next(s, c, argv[i])] == f[i]
      && (Next(s, c, argv[i]) < a || Next(s, c, argv[i]) == |s|)
  }

  lemma CutNext(buf: seq<char>, buf': seq<char>, s: string, c: char, a: nat, p: nat)
    requires Cut(buf, s, c, a) && a <= p == Next(s, c, a) < |s| && buf' == buf[p := '\0']
    ensures Cut(buf', s, c, p + 1)
  {
    forall i | 0 <= i < p ensures buf'[i] == if s[i] == c then '\0' else s[i] {
      assert buf'[i] == buf[i];
    }
  }

  /** The field at `a` is the next one; it is the last unless something follows its separator. */
  lemma SplitNext(f: seq<string>, s: string, c: char, a: nat, k: nat)
    requires Splitting(f, s, c, a, k)
    ensures var p := Next(s, c, a);
            k < |f| && f[k] == s[a..p]
            && if p + 1 < |s| then Splitting(f, s, c, p + 1, k + 1) && k + 1 < |f| else |f| == k + 1
  {
    var p := Next(s, c, a);
    assert f[k] == f[k..][0] && f[k + 1..] == f[k..][1..];
    if p + 1 < |s| {
      assert ([s[a..p]] + Fields(s, c, p + 1))[1..] == Fields(s, c, p + 1);
    }
  }

  lemma ArguedNext(argv: seq<nat>, argv': seq<nat>, f: seq<string>, s: string, c: char, a: nat, b: nat, k: nat)
    requires Argued(argv, f, s, c, a, k) && k < |f| && k < |argv'| && argv'[..k] == argv[..k] && argv'[k] == a <= |s|
    requires f[k] == s[a..Next(s, c, a)] && a <= b && (Next(s, c, a) < b || Next(s, c, a) == |s|)
    ensures Argued(argv', f, s, c, b, k + 1)
  {
    forall i | 0 <= i < k ensures argv'[i] == argv[i] { assert argv'[..k][i] == argv[..k][i]; }
  }

  /** Every argument is a string of its own. */
  lemma ArgumentTexts(buf: seq<char>, argv: seq<nat>, f: seq<string>, s: string, c: char, b: nat, k: nat)
    requires Cut(buf, s, c, b) && Argued(argv, f, s, c, b, k) && '\0' !in s
    ensures k <= |f| && k <= |argv| && forall i :: 0 <= i < k ==> TextAt(buf, argv[i]) == f[i]
  {
    forall i | 0 <= i < k ensures TextAt(buf, argv[i]) == f[i] {
      FieldText(buf, s, c, argv[i], b);
    }
  }

  /** Field `argc` starts at `arg`. */
  ghost predicate Begun(msg: seq<char>, argv: seq<nat>, max: nat, n: nat, arg: nat, argc: nat, c: char, s: string,
                        f: seq<string>) {
    && argc < max <= |argv| && arg < n && (argc > 0 ==> argv[argc] == arg) && (argc == 0 ==> arg == 0)
    && Cut(msg, s, c, arg) && Splitting(f, s, c, arg, argc) && Argued(argv, f, s, c, arg, argc)
  }

  /** The loop is left with the separators before `b` overwritten and `k` fields stored. */
  ghost predicate Ended(msg: seq<char>, argv: seq<nat>, max: nat, argc: nat, c: char, s: string, f: seq<string>,
                        b: nat, k: nat) {
    argc + 1 == Min(|f|, max + 1) && k == Min(|f|, max) && Cut(msg, s, c, b) && Argued(argv, f, s, c, b, k)
  }

  lemma EndedParts(msg: seq<char>, argv: seq<nat>, max: nat, argc: nat, c: char, s: string, f: seq<string>, b: nat,
                   k: nat)
    requires Ended(msg, argv, max, argc, c, s, f, b, k)
    ensures argc + 1 == Min(|f|, max + 1) && k == Min(|f|, max) && Cut(msg, s, c, b) && Argued(argv, f, s, c, b, k)
  {}

  /** `*p = 0` */
  method Overwrite(msg: array<char>, p: nat, c: char, ghost s: string, ghost a: nat)
    requires Cut(msg[..], s, c, a) && a <= p == Next(s, c, a) < |s| < msg.Length
    modifies msg
    ensures Cut(msg[..], s, c, p + 1)
  {
    CutNext(msg[..], msg[..][p := '\0'], s, c, a, p);
    hide Cut;
    msg[p] := '\0';
    assert msg[..] == old(msg[..])[p := '\0'];
  }

  /** `argv[argc++] = arg`, and the start of the next field if there is room. */
  method StoreField(argv: array<nat>, argc: nat, arg: nat, p: nat, max: nat, c: char, ghost s: string,
                    ghost f: seq<string>)
    requires argc < max <= argv.Length && argc < |f| && arg <= |s| && f[argc] == s[arg..Next(s, c, arg)]
    requires p == Next(s, c, arg) + 1 && Argued(argv[..], f, s, c, arg, argc)
    modifies argv
    ensures Argued(argv[..], f, s, c, p, argc + 1) && (argc + 1 < max ==> argv[argc + 1] == p)
  {
    ghost var args := argv[..];
    argv[argc] := arg;
    if argc + 1 < max {
      argv[argc + 1] := p;
    }
    ArguedNext(args, argv[..], f, s, c, arg, p, argc);
  }

  /** The last field needs no separator behind it; it is stored already unless it is the only one. */
  method LastField(argv: array<nat>, argc: nat, arg: nat, c: char, ghost s: string, ghost f: seq<string>, ghost b: nat)
    requires argc < argv.Length && argc < |f| && arg <= |s| && f[argc] == s[arg..Next(s, c, arg)]
    requires arg <= b && (Next(s, c, arg) < b || Next(s, c, arg) == |s|) && Argued(argv[..], f, s, c, arg, argc)
    requires if argc == 0 then arg == 0 else argv[argc] == arg
    modifies argv
    ensures Argued(argv[..], f, s, c, b, argc + 1)
  {
    ghost var args := argv[..];
    if argc == 0 {
      argv[0] := 0;
    }
    ArguedNext(args, argv[..], f, s, c, arg, b, argc);
  }

  lemma CutRest(buf: seq<char>, s: string, c: char, a: nat)
    requires Cut(buf, s, c, a)
    ensures a <= |s| < |buf| && buf[a..|s|] == s[a..]
  {}

  /** One round of the loop. */
  method SplitStep(msg: array<char>, n: nat, argv: array<nat>, argc: nat, arg: nat, max: nat, c: char, ghost s: string,
                   ghost f: seq<string>)
    returns (stop: bool, argc': nat, arg': nat, ghost b: nat, ghost k: nat)
    requires n == |s| < msg.Length && Begun(msg[..], argv[..], max, n, arg, argc, c, s, f)
    modifies msg, argv
    ensures !stop ==> Begun(msg[..], argv[..], max, n, arg', argc', c, s, f) && arg < arg'
    ensures stop ==> Ended(msg[..], argv[..], max, argc', c, s, f, b, k)
  {
    SplitNext(f, s, c, arg, argc);
    CutRest(msg[..], s, c, arg);
    hide Cut, Argued, Fields, Splitting;
    var p := StrChr(msg, arg, n, c, s);
    if p == n {
      LastField(argv, argc, arg, c, s, f, arg);
      return true, argc, arg, arg, argc + 1;
    }
    Overwrite(msg, p, c, s, arg);
    p := p + 1;
    if p == n {
      LastField(argv, argc, arg, c, s, f, p);
      return true, argc, arg, p, argc + 1;
    }
    StoreField(argv, argc, arg, p, max, c, s, f);
    return argc + 1 >= max, argc + 1, p, p, argc + 1;
  }

  /** The loop of `cstring_split`, up to one of its three ends. */
  method SplitLoop(msg: array<char>, n: nat, argv: array<nat>, max: nat, c: char, ghost s: string, ghost f: seq<string>)
    returns (argc: nat, ghost b: nat, ghost k: nat)
    requires 0 < n == |s| < msg.Length && Cut(msg[..], s, c, 0) && f == Fields(s, c, 0)
    requires max >= 1 && argv.Length >= max
    modifies msg, argv
    ensures argc + 1 == Min(|f|, max + 1) && k == Min(|f|, max)
    ensures Cut(msg[..], s, c, b) && Argued(argv[..], f, s, c, b, k)
  {
    var arg := 0;
    argc := 0;
    assert Begun(msg[..], argv[..], max, n, 0, 0, c, s, f) by { assert f[0..] == f; }
    hide *;
    var stop := false;
    b, k := 0, 0;
    while !stop
      invariant !stop ==> Begun(msg[..], argv[..], max, n, arg, argc, c, s, f)
      invariant stop ==> Ended(msg[..], argv[..], max, argc, c, s, f, b, k)
      decreases !stop, n - arg
    {
      stop, argc, arg, b, k := SplitStep(msg, n, argv, argc, arg, max, c, s, f);
    }
    EndedParts(msg[..], argv[..], max, argc, c, s, f, b, k);
  }

  /** `cstring_split`: for `max >= 1` at most `max` fields are split off, and the result says whether there
      are more. */
  method Split(msg: array<char>, n: nat, argv: array<nat>, max: nat, c: char, ghost s: string) returns (argc: nat)
    requires n == |s| < msg.Length && msg[..n] == s && msg[n] == '\0' && '\0' !in s && c != '\0'
    requires max >= 1 && argv.Length >= max
    modifies msg, argv
    ensures s == "" ==> argc == 0
    ensures s != "" ==> argc == Min(|Fields(s, c, 0)|, max + 1) && (argc > max <==> |Fields(s, c, 0)| > max)
    ensures s != "" ==>
              forall i :: 0 <= i < Min(|Fields(s, c, 0)|, max) ==> TextAt(msg[..], argv[i]) == Fields(s, c, 0)[i]
  {
    if n == 0 { return 0; }
    ghost var f, b, k := Fields(s, c, 0), 0, 0;
    assert Cut(msg[..], s, c, 0) by { assert forall i :: 0 <= i < n ==> msg[i] == msg[..n][i]; }
    hide Cut, Argued, Fields;
    argc, b, k := SplitLoop(msg, n, argv, max, c, s, f);
    ArgumentTexts(msg[..], argv[..], f, s, c, b, k);
    argc := argc + 1;
  }

  // ---- numbers ----

  /** The decimal digits of a number. */
  function Decimal(n: nat): (s: string)
    ensures s != ""
  {
    (if n < 10 then "" else Decimal(n / 10)) + [('0' as int + n % 10) as char]
  }

  function NumberOf(s: string): int {
    if s == "" then 0 else 10 * NumberOf(s[..|s| - 1]) + (s[|s| - 1] as int - '0' as int)
  }

  /** The digits write the number. */
  lemma {:induction false} DecimalIs(n: nat)
    ensures NumberOf(Decimal(n)) == n
  {
    var s := Decimal(n);
    if n >= 10 {
      DecimalIs(n / 10);
      assert s[..|s| - 1] == Decimal(n / 10);
    } else {
      assert s[..|s| - 1] == "";
    }
  }

  lemma {:induction false} DecimalLength(n: nat, k: nat)
    requires k > 0
    ensures |Decimal(n)| <= k <==> n < PowerOf10(k)
  {
    if k == 1 {
      assert PowerOf10(1) == 10;
    } else {
      DecimalLength(n / 10, k - 1);
    }
  }

  lemma TwentyDigits(n: nat)
    requires n < TWO64
    ensures |Decimal(n)| <= 20
  {
    assert PowerOf10(5) == 100000 by { assert PowerOf10(3) == 1000; }
    assert PowerOf10(10) == 10000000000 by { assert PowerOf10(8) == 100000000 by { assert PowerOf10(7) == 10000000; } }
    assert PowerOf10(12) == 1_000_000_000_000;
    assert PowerOf10(13) == 10_000_000_000_000;
    assert PowerOf10(15) == 1_000_000_000_000_000;
    assert PowerOf10(17) == 100_000_000_000_000_000;
    assert PowerOf10(18) == 1_000_000_000_000_000_000;
    assert PowerOf10(20) == 100_000_000_000_000_000_000;
    DecimalLength(n, 20);
  }

  /** `cstring_itoa`: the digits without a NUL behind them, and one more than their number. */
  method Itoa(out: array<char>, n: nat) returns (r: nat)
    requires n < TWO64 && out.Length >= |Decimal(n)|
    modifies out
    ensures r == |Decimal(n)| + 1 && out[..r - 1] == Decimal(n) && out[r - 1..] == old(out[r - 1..])
  {
    TwentyDigits(n);
    var buf: seq<char> := [];
    var m, i := n, 30;
    hide PowerOf10;
    while true
      invariant 0 <= i <= 30 && i == 30 - |buf| && Decimal(m) + buf == Decimal(n) && |Decimal(m)| <= i
      decreases m
    {
      var rem := m % 10;
      ghost var rest := if m < 10 then "" else Decimal(m / 10);
      assert rest + ([('0' as int + rem) as char] + buf) == Decimal(m) + buf;
      buf := [('0' as int + rem) as char] + buf;
      i := i - 1;
      m := m / 10;
      if m == 0 { break; }
    }
    assert buf == Decimal(n);
    var j := 0;
    while j < 30 - i
      invariant 0 <= j <= |buf| && out[..j] == buf[..j] && out[j..] == old(out[j..])
    {
      out[j] := buf[j];
      assert out[j + 1..] == old(out[j..])[1..];
      j := j + 1;
    }
    r := 31 - i;
  }
}
