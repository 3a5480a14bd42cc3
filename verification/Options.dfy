/** The options of SET: which lists are accepted, and what they mean. */
module SetOptions {
  import opened Collections
  import opened DataService
  import opened HashTables
  import opened Keyspace

  newtype int64 = x: int | -0x8000_0000_0000_0000 <= x < 0x8000_0000_0000_0000

  const REP_MAX: int64 := 0x7FFF_FFFF_FFFF_FFFF

  // ---------------------------------------------------------------- numbers in text

  predicate IsDigits(s: string) {
    forall i :: 0 <= i < |s| ==> '0' <= s[i] <= '9'
  }

  function ValueOf(s: string): nat
    requires IsDigits(s)
  {
    if s == [] then 0 else 10 * ValueOf(s[..|s| - 1]) + (s[|s| - 1] as int - '0' as int)
  }

  /** A whole argument as a 64-bit number: an optional minus sign, then digits only. */
  function ParseInt(s: string): Option<int64> {
    if s != [] && s[0] == '-' then
      if |s| > 1 && IsDigits(s[1..]) && ValueOf(s[1..]) <= REP_MAX as int + 1 then Some((0 - ValueOf(s[1..])) as int64)
          else None
    else if s != [] && IsDigits(s) && ValueOf(s) <= REP_MAX as int then Some(ValueOf(s) as int64)
    else None
  }

  function Decimal(n: nat): (s: string)
    ensures s != [] && IsDigits(s)
  {
    if n < 10 then ['0' + n as char] else Decimal(n / 10) + ['0' + (n % 10) as char]
  }

  function Printed(v: int): string {
    if v < 0 then "-" + Decimal(-v) else Decimal(v)
  }

  lemma {:induction false} DecimalValue(n: nat)
    ensures ValueOf(Decimal(n)) == n
  {
    var s := Decimal(n);
    if n < 10 {
      assert s[..0] == [];
    } else {
      DecimalValue(n / 10);
      assert s[..|s| - 1] == Decimal(n / 10);
    }
  }

  /** A printed number is read back exactly if 64 bits hold it. */
  lemma PrintedIsParsed(v: int)
    ensures ParseInt(Printed(v)) ==
            if -0x8000_0000_0000_0000 <= v <= REP_MAX as int then Some(v as int64) else None
  {
    hide ValueOf;
    hide Decimal;
    var n := if v < 0 then -v else v;
    var d := Decimal(n);
    DecimalValue(n);
    assert '0' <= d[0] <= '9';
    if v < 0 {
      assert Printed(v)[1..] == d;
    }
  }

  /** An argument with a character that is no digit, but for a sign in front, is no number, nor is one without
      a digit. */
  lemma OnlyNumbersAreParsed(s: string, i: nat)
    requires s == [] || s == "-" || (i < |s| && !('0' <= s[i] <= '9') && !(i == 0 && s[0] == '-'))
    ensures ParseInt(s) == None
  {
    if s != [] && s[0] == '-' && i > 0 && s != "-" {
      assert s[1..][i - 1] == s[i];
    }
  }

  // ---------------------------------------------------------------- deadlines

  datatype Unit = Px | Ex | Pxat | Exat

  /** The deadline in milliseconds that a positive amount means, if it is one a 64-bit clock can hold. */
  function DeadlineOf(unit: Unit, amount: int, now: int): Option<Time> {
    var at := match unit
      case Px => now + amount
      case Ex => now + 1000 * amount
      case Pxat => amount
      case Exat => 1000 * amount;
    if at <= REP_MAX as int then Some(at) else None
  }

  /** The code's conversion: 64-bit arithmetic throughout, in which nothing overflows. */
  method ToTimePoint(unit: Unit, rep: int64, now: int64) returns (at: Option<int64>)
    requires rep > 0 && now >= 0
    ensures at.Some? <==> DeadlineOf(unit, rep as int, now as int).Some?
    ensures at.Some? ==> DeadlineOf(unit, rep as int, now as int) == Some(at.value as int)
  {
    match unit
    case Px =>
      if REP_MAX - now >= rep {
        return Some(now + rep);
      }
      return None;
    case Ex =>
      if REP_MAX / 1000 < rep {
        return None;
      }
      var duration := rep * 1000;
      if REP_MAX - now >= duration {
        return Some(now + duration);
      }
      return None;
    case Pxat =>
      return Some(rep);
    case Exat =>
      if REP_MAX / 1000 < rep {
        return None;
      }
      return Some(rep * 1000);
  }

  // ---------------------------------------------------------------- what a list of options means

  datatype Group =
    | GetGroup
    | NxGroup
    | XxGroup
    | KeepTtlGroup
    | DeadlineGroup(unit: Unit, text: string)
    | BadGroup

  function UnitOf(arg: string): Option<Unit> {
    if arg == "PX" then Some(Px) else if arg == "EX" then Some(Ex)
    else if arg == "PXAT" then Some(Pxat) else if arg == "EXAT" then Some(Exat) else None
  }

  /** Cuts the arguments into option groups; a unit takes the next argument with it. */
  function Groups(args: seq<string>): seq<Group> {
    if args == [] then []
    else if args[0] == "GET" then [GetGroup] + Groups(args[1..])
    else if args[0] == "NX" then [NxGroup] + Groups(args[1..])
    else if args[0] == "XX" then [XxGroup] + Groups(args[1..])
    else if args[0] == "KEEPTTL" then [KeepTtlGroup] + Groups(args[1..])
    else if UnitOf(args[0]).None? || |args| == 1 then [BadGroup] + Groups(args[1..])
    else [DeadlineGroup(UnitOf(args[0]).value, args[1])] + Groups(args[2..])
  }

  function CountModes(groups: seq<Group>): nat {
    if groups == [] then 0
    else CountModes(groups[..|groups| - 1]) + if groups[|groups| - 1].NxGroup? || groups[|groups| - 1].XxGroup? then 1
        else 0
  }

  function CountDeadlines(groups: seq<Group>): nat {
    if groups == [] then 0 else CountDeadlines(groups[..|groups| - 1]) + if groups[|groups| - 1].DeadlineGroup? then 1
        else 0
  }

  function DeadlineMeant(g: Group, now: int): Option<Time>
    requires g.DeadlineGroup?
  {
    match ParseInt(g.text)
    case None => None
    case Some(amount) => if amount > 0 then DeadlineOf(g.unit, amount as int, now) else None
  }

  /** At most one of NX and XX, at most one deadline, in range and positive, and none beside KEEPTTL. */
  predicate Accepted(groups: seq<Group>, now: int) {
    && BadGroup !in groups
    && CountModes(groups) <= 1
    && CountDeadlines(groups) <= 1
    && (CountDeadlines(groups) == 1 ==> KeepTtlGroup !in groups)
    && (forall g :: g in groups && g.DeadlineGroup? ==> DeadlineMeant(g, now).Some?)
  }

  datatype Options = Options(mode: SetMode, deadline: Option<Time>, keepTtl: bool, get: bool)

  /** `o` is what an accepted list means. */
  ghost predicate Means(groups: seq<Group>, now: int, o: Options) {
    && o.mode == (if NxGroup in groups then NX else if XxGroup in groups then XX else Regular)
    && (o.keepTtl <==> KeepTtlGroup in groups)
    && (o.get <==> GetGroup in groups)
    && (o.deadline.Some? <==> CountDeadlines(groups) > 0)
    && (forall g :: g in groups && g.DeadlineGroup? ==> o.deadline == DeadlineMeant(g, now))
  }

  lemma OneDeadline(name: string, unit: Unit, n: int, now: int, o: Options)
    requires UnitOf(name) == Some(unit) && now >= 0
    requires name != "GET" && name != "NX" && name != "XX" && name != "KEEPTTL"
    ensures var groups := Groups([name, Printed(n)]);
            && (Accepted(groups, now) <==> 0 < n <= REP_MAX as int && DeadlineOf(unit, n, now).Some?)
            && (Accepted(groups, now) && Means(groups, now, o) ==> o.deadline == DeadlineOf(unit, n, now))
  {
    var args := [name, Printed(n)];
    var g := DeadlineGroup(unit, Printed(n));
    assert args[2..] == [];
    assert Groups(args) == [g];
    hide Groups;
    PrintedIsParsed(n);
    assert [g][..0] == [];
    assert CountModes([g]) == 0 && CountDeadlines([g]) == 1;
    assert g in [g];
  }

  /** What the four units mean, in milliseconds: EX and PX count from now, EXAT and PXAT from the epoch, and those
      with EX count seconds. A list is accepted exactly if the number is positive and the deadline fits 64 bits. */
  lemma UnitsMean(n: int, now: int, o: Options)
    requires now >= 0
    ensures var ex, px := Groups(["EX", Printed(n)]), Groups(["PX", Printed(n)]);
            && (Accepted(ex, now) <==> n > 0 && now + 1000 * n <= REP_MAX as int)
            && (Accepted(ex, now) && Means(ex, now, o) ==> o.deadline == Some(now + 1000 * n))
            && (Accepted(px, now) <==> n > 0 && now + n <= REP_MAX as int)
            && (Accepted(px, now) && Means(px, now, o) ==> o.deadline == Some(now + n))
    ensures var exat, pxat := Groups(["EXAT", Printed(n)]), Groups(["PXAT", Printed(n)]);
            && (Accepted(exat, now) <==> n > 0 && 1000 * n <= REP_MAX as int)
            && (Accepted(exat, now) && Means(exat, now, o) ==> o.deadline == Some(1000 * n))
            && (Accepted(pxat, now) <==> n > 0 && n <= REP_MAX as int)
            && (Accepted(pxat, now) && Means(pxat, now, o) ==> o.deadline == Some(n))
  {
    hide Groups;
    hide Accepted;
    hide Means;
    hide Printed;
    OneDeadline("EX", Ex, n, now, o);
    OneDeadline("PX", Px, n, now, o);
    OneDeadline("EXAT", Exat, n, now, o);
    OneDeadline("PXAT", Pxat, n, now, o);
  }

  /** An amount in seconds is accepted and means a deadline as it does in milliseconds. */
  lemma SecondsAreMilliseconds(n: int, now: int, a: Options, b: Options)
    requires now >= 0
    ensures var ex, px := Groups(["EX", Printed(n)]), Groups(["PX", Printed(1000 * n)]);
            && (Accepted(ex, now) <==> Accepted(px, now))
            && (Accepted(ex, now) && Means(ex, now, a) && Means(px, now, b) ==> a.deadline == b.deadline)
  {
    hide Groups;
    hide Accepted;
    hide Means;
    hide Printed;
    UnitsMean(n, now, a);
    UnitsMean(1000 * n, now, b);
  }

  // ---------------------------------------------------------------- the extractor

  datatype Error = SyntaxError | NotAnInt

  datatype ExpireResult = Done(at: Time) | NotFound | Failed(error: Error)

  datatype Parsed = Accept(options: Options) | Reject(error: Error)

  /** Reads a deadline group that starts at argument `i`. */
  method ExtractExpireOptions(args: seq<string>, i: nat, now: int64, known: Option<Time>) returns (r: ExpireResult)
    requires i < |args| && now >= 0
    ensures r.NotFound? <==> UnitOf(args[i]).None?
    ensures r == Failed(SyntaxError) <==> UnitOf(args[i]).Some? && (i == |args| - 1 || known.Some?)
    ensures UnitOf(args[i]).Some? && i < |args| - 1 && known.None? ==>
              var meant := DeadlineMeant(DeadlineGroup(UnitOf(args[i]).value, args[i + 1]), now as int);
              r == if meant.None? then Failed(NotAnInt) else Done(meant.value)
  {
    var unit := UnitOf(args[i]);
    if unit.None? {
      return NotFound;
    }
    if i == |args| - 1 {
      return Failed(SyntaxError);
    }
    if known.Some? {
      return Failed(SyntaxError);
    }
    var amount := ParseInt(args[i + 1]);
    if amount.None? || amount.value <= 0 {
      return Failed(NotAnInt);
    }
    var at := ToTimePoint(unit.value, amount.value, now);
    if at.None? {
      return Failed(NotAnInt);
    }
    return Done(at.value as int);
  }

  lemma Snoc(done: seq<Group>, g: Group)
    ensures CountModes(done + [g]) == CountModes(done) + if g.NxGroup? || g.XxGroup? then 1 else 0
    ensures CountDeadlines(done + [g]) == CountDeadlines(done) + if g.DeadlineGroup? then 1 else 0
    ensures forall x :: x in done + [g] <==> x in done || x == g
  {
    assert (done + [g])[..|done|] == done;
  }

  /** When one more group keeps a list accepted. */
  predicate Fits(done: seq<Group>, g: Group, now: int) {
    match g
    case BadGroup => false
    case GetGroup => true
    case NxGroup => CountModes(done) == 0
    case XxGroup => CountModes(done) == 0
    case KeepTtlGroup => CountDeadlines(done) == 0
    case DeadlineGroup(_, _) => CountDeadlines(done) == 0 && DeadlineMeant(g, now).Some? && KeepTtlGroup !in done
  }

  lemma AcceptedSnoc(done: seq<Group>, g: Group, now: int)
    requires Accepted(done, now)
    ensures Accepted(done + [g], now) <==> Fits(done, g, now)
  {
    Snoc(done, g);
  }

  /** A rejected list stays rejected whatever follows. */
  lemma {:induction false} RejectedPrefix(groups: seq<Group>, n: nat, now: int)
    requires n <= |groups| && Accepted(groups, now)
    ensures Accepted(groups[..n], now)
    decreases |groups|
  {
    if n < |groups| {
      var front := groups[..|groups| - 1];
      assert groups == front + [groups[|groups| - 1]];
      Snoc(front, groups[|groups| - 1]);
      RejectedPrefix(front, n, now);
      assert front[..n] == groups[..n];
    } else {
      assert groups[..n] == groups;
    }
  }

  lemma {:induction false} CountedGroups(groups: seq<Group>)
    ensures CountModes(groups) > 0 <==> NxGroup in groups || XxGroup in groups
    ensures CountDeadlines(groups) > 0 <==> exists g :: g in groups && g.DeadlineGroup?
  {
    if groups != [] {
      var front := groups[..|groups| - 1];
      assert groups == front + [groups[|groups| - 1]];
      CountedGroups(front);
    }
  }

  /** Where a list is rejected and with which error: at the first group that does not fit; a bad amount is no
      integer unless a deadline came before. */
  ghost predicate RejectedAt(groups: seq<Group>, n: nat, now: int, e: Error) {
    && n < |groups| && Accepted(groups[..n], now) && !Accepted(groups[..n + 1], now)
    && e == if NotAnAmount(groups[..n], groups[n], now) then NotAnInt else SyntaxError
  }

  lemma RejectHere(groups: seq<Group>, done: seq<Group>, g: Group, rest: seq<Group>, now: int)
    requires groups == done + [g] + rest && Accepted(done, now) && !Fits(done, g, now)
    ensures !Accepted(groups, now)
    ensures groups[..|done|] == done && groups[|done|] == g && groups[..|done| + 1] == done + [g]
    ensures !Accepted(done + [g], now)
  {
    AcceptedSnoc(done, g, now);
    assert groups[..|done| + 1] == done + [g];
    if Accepted(groups, now) {
      RejectedPrefix(groups, |done| + 1, now);
    }
  }

  /** One loop step seen as a group: it either fits, and the options grow, or it does not. */
  lemma StepMeans(done: seq<Group>, g: Group, now: int, o: Options)
    requires Accepted(done, now) && Means(done, now, o)
    ensures CountModes(done) == 0 <==> o.mode == Regular
    ensures CountDeadlines(done) == 0 <==> o.deadline.None?
    ensures Fits(done, g, now) && g.GetGroup? ==> Means(done + [g], now, o.(get := true))
    ensures Fits(done, g, now) && g.NxGroup? ==> Means(done + [g], now, o.(mode := NX))
    ensures Fits(done, g, now) && g.XxGroup? ==> Means(done + [g], now, o.(mode := XX))
    ensures Fits(done, g, now) && g.KeepTtlGroup? ==> Means(done + [g], now, o.(keepTtl := true))
    ensures Fits(done, g, now) && g.DeadlineGroup? ==> Means(done + [g], now, o.(deadline := DeadlineMeant(g, now)))
  {
    Snoc(done, g);
    CountedGroups(done);
  }

  datatype Step = Next(options: Options, next: nat) | Stop(error: Error)

  predicate NotAnAmount(done: seq<Group>, g: Group, now: int) {
    g.DeadlineGroup? && CountDeadlines(done) == 0 && DeadlineMeant(g, now).None?
  }

  /** One turn of the loop: takes the group at argument `i`. */
  method TakeGroup(args: seq<string>, i: nat, now: int64, o: Options, ghost done: seq<Group>) returns (r: Step)
    requires i < |args| && now >= 0 && Accepted(done, now as int) && Means(done, now as int, o)
    ensures Groups(args[i..]) != []
    ensures r.Next? <==> Fits(done, Groups(args[i..])[0], now as int)
    ensures r.Next? ==> i < r.next <= |args| && Groups(args[i..]) == [Groups(args[i..])[0]] + Groups(args[r.next..])
    ensures r.Next? ==> Means(done + [Groups(args[i..])[0]], now as int, r.options)
    ensures r.Stop? ==> r.error == if NotAnAmount(done, Groups(args[i..])[0], now as int) then NotAnInt else SyntaxError
  {
    hide Accepted;
    hide Means;
    ghost var g := Groups(args[i..])[0];
    StepMeans(done, g, now as int, o);
    KeptMeans(done, now as int, o);
    assert args[i..][1..] == args[i + 1..];
    if args[i] == "GET" {
      return Next(o.(get := true), i + 1);
    } else if args[i] == "NX" {
      if o.mode != Regular {
        return Stop(SyntaxError);
      }
      return Next(o.(mode := NX), i + 1);
    } else if args[i] == "XX" {
      if o.mode != Regular {
        return Stop(SyntaxError);
      }
      return Next(o.(mode := XX), i + 1);
    } else if args[i] == "KEEPTTL" {
      if o.deadline.Some? {
        return Stop(SyntaxError);
      }
      return Next(o.(keepTtl := true), i + 1);
    }
    var expire := ExtractExpireOptions(args, i, now, o.deadline);
    match expire
    case Failed(error) =>
      return Stop(error);
    case NotFound =>
      return Stop(SyntaxError);
    case Done(at) =>
      assert args[i..][2..] == args[i + 2..];
      if !o.keepTtl {
        return Next(o.(deadline := Some(at)), i + 2);
      }
      return Stop(SyntaxError);
  }

  /** Accepts exactly the lists whose groups are accepted, and gives what they mean. */
  method ExtractSetOptions(args: seq<string>, now: int64) returns (r: Parsed, ghost at: nat)
    requires now >= 0
    ensures r.Accept? <==> Accepted(Groups(args), now as int)
    ensures r.Accept? ==> Means(Groups(args), now as int, r.options)
    ensures r.Reject? ==> RejectedAt(Groups(args), at, now as int, r.error)
  {
    hide Accepted;
    hide Means;
    hide Fits;
    hide Groups;
    var o, i := Options(Regular, None, false, false), 0;
    ghost var groups, done, t := Groups(args), [], now as int;
    NoGroups(t);
    assert args[0..] == args;
    while i < |args|
      invariant i <= |args| && groups == done + Groups(args[i..])
      invariant Accepted(done, t) && Means(done, t, o)
    {
      var step := TakeGroup(args, i, now, o, done);
      ghost var g, rest := Groups(args[i..])[0], Groups(args[i..])[1..];
      assert groups == done + [g] + rest;
      if step.Stop? {
        RejectHere(groups, done, g, rest, t);
        return Reject(step.error), |done|;
      }
      AcceptedSnoc(done, g, t);
      o, i, done := step.options, step.next, done + [g];
    }
    assert args[i..] == [] && groups == done;
    at, r := 0, Accept(o);
  }

  lemma KeptMeans(done: seq<Group>, now: int, o: Options)
    requires Means(done, now, o)
    ensures o.keepTtl <==> KeepTtlGroup in done
  {
  }

  lemma NoGroups(now: int)
    ensures Groups([]) == [] && Accepted([], now) && Means([], now, Options(Regular, None, false, false))
  {
  }

  // ---------------------------------------------------------------- order does not matter

  lemma {:induction false} SameCounts(a: seq<Group>, b: seq<Group>)
    requires multiset(a) == multiset(b)
    ensures CountModes(a) == CountModes(b) && CountDeadlines(a) == CountDeadlines(b)
    decreases |a|
  {
    assert |a| == |multiset(a)| == |multiset(b)| == |b|;
    if a != [] {
      var g, front := a[|a| - 1], a[..|a| - 1];
      assert a == front + [g];
      assert g in multiset(b);
      var k :| 0 <= k < |b| && b[k] == g;
      var rest := b[..k] + b[k + 1..];
      assert b == b[..k] + [g] + b[k + 1..];
      RemoveOne(front, b[..k], b[k + 1..], g);
      SameCounts(front, rest);
      Insert(b[..k], g, b[k + 1..]);
      Snoc(front, g);
    }
  }

  lemma RemoveOne(front: seq<Group>, l: seq<Group>, r: seq<Group>, g: Group)
    requires multiset(front + [g]) == multiset(l + [g] + r)
    ensures multiset(front) == multiset(l + r)
  {
    assert multiset(front + [g]) == multiset(front) + multiset{g};
    assert multiset(l + [g] + r) == multiset(l) + multiset{g} + multiset(r);
    assert multiset(l + r) == multiset(l) + multiset(r);
    assert multiset(front) == multiset(front + [g]) - multiset{g};
  }

  lemma {:induction false} Insert(a: seq<Group>, g: Group, b: seq<Group>)
    ensures CountModes(a + [g] + b) == CountModes(a + b) + if g.NxGroup? || g.XxGroup? then 1 else 0
    ensures CountDeadlines(a + [g] + b) == CountDeadlines(a + b) + if g.DeadlineGroup? then 1 else 0
    decreases |b|
  {
    if b == [] {
      Snoc(a, g);
      assert a + [g] + b == a + [g] && a + b == a;
    } else {
      var front, last := b[..|b| - 1], b[|b| - 1];
      Insert(a, g, front);
      assert a + [g] + b == (a + [g] + front) + [last] && a + b == (a + front) + [last];
      Snoc(a + [g] + front, last);
      Snoc(a + front, last);
    }
  }

  /** Whether a list is accepted and what it means does not depend on the order of its groups. */
  lemma OrderIrrelevant(a: seq<Group>, b: seq<Group>, now: int, o: Options)
    requires multiset(a) == multiset(b)
    ensures Accepted(a, now) <==> Accepted(b, now)
    ensures Means(a, now, o) <==> Means(b, now, o)
  {
    SameCounts(a, b);
    forall g ensures g in a <==> g in b {
      assert g in multiset(a) <==> g in multiset(b);
    }
  }

  /** An accepted list means one thing. */
  lemma OneMeaning(groups: seq<Group>, now: int, o: Options, p: Options)
    requires Accepted(groups, now) && Means(groups, now, o) && Means(groups, now, p)
    ensures o == p
  {
    CountedGroups(groups);
  }

  // ---------------------------------------------------------------- the command

  datatype Outcome = WrongArgNum | Rejected(error: Error) | Run(reply: Option<Reply>)

  function SetOf(key: string, value: string, o: Options): Command {
    Set(key, value, o.mode, o.deadline, o.keepTtl, o.get)
  }

  /** SET with its arguments, `args[0]` being the command name. */
  method SetFunction(service: Service, args: seq<string>, now: int64) returns (r: Outcome, ghost o: Options)
    requires now >= 0 && service.Valid() && |service.View().data| + 1 < MAX_ENTRIES
    modifies service.Repr()
    ensures service.Valid()
    ensures r.WrongArgNum? <==> |args| < 3
    ensures r.Run? <==> |args| >= 3 && Accepted(Groups(args[3..]), now as int)
    ensures r.Run? ==>
              && Means(Groups(args[3..]), now as int, o)
              && Does(old(service.View()), old(service.Unshared()), SetOf(args[1], args[2], o), now as int,
                      service.View(), service.Unshared(), r.reply)
    ensures !r.Run? ==> service.View() == old(service.View()) && service.Unshared() == old(service.Unshared())
  {
    hide Service.Valid;
    hide Service.Unshared;
    hide Does;
    hide Accepted;
    hide Means;
    hide Groups;
    o := Options(Regular, None, false, false);
    if |args| < 3 {
      return WrongArgNum, o;
    }
    var options := Options(Regular, None, false, false);
    if |args| > 3 {
      var parsed;
      ghost var at;
      parsed, at := ExtractSetOptions(args[3..], now);
      if parsed.Reject? {
        return Rejected(parsed.error), o;
      }
      options := parsed.options;
    } else {
      NoGroups(now as int);
      assert args[3..] == [];
    }
    o := options;
    var reply :=
      service.Set(args[1], args[2], options.mode, options.deadline, options.keepTtl, options.get, now as int);
    r := Run(reply);
  }
}
