/** How long a node keeps content, and the part of it every node can be asked about. */
module Retention {
  import opened Wrappers
  import opened MachineInt

  const MINIMUM_DAYS: nat := 30
  const MILLIS_PER_DAY: nat := 24 * 60 * 60 * 1000

  datatype Policy = Rolling(days: nat) | Archival

  datatype ParseError = NotANumber | BelowMinimum

  function Age(createdAt: nat, now: nat): nat {
    if now < createdAt then 0 else now - createdAt
  }

  /** The length of a window in milliseconds, held at the largest value the word can show. */
  function Window(days: nat): nat {
    if days * MILLIS_PER_DAY < U64 then days * MILLIS_PER_DAY else U64 - 1
  }

  predicate Within(createdAt: nat, now: nat, days: nat) {
    Age(createdAt, now) <= Window(days)
  }

  predicate Keeps(policy: Policy, createdAt: nat, now: nat) {
    policy.Rolling? ==> Within(createdAt, now, policy.days)
  }

  /** Content any node may be challenged about: a property of the content and the clock, not of a policy. */
  predicate ChallengeWindow(createdAt: nat, now: nat) {
    Within(createdAt, now, MINIMUM_DAYS)
  }

  /** A window of some days has not passed, counted on a clock that fits the word; longer ones never do. */
  lemma WithinMeans(createdAt: nat, now: nat, days: nat)
    requires now < U64
    ensures Within(createdAt, now, days) <==> now <= createdAt + 86_400_000 * days
  {
  }

  /** A policy keeps everything it can be challenged about if and only if it is no shorter than the floor. */
  lemma KeepsCoversChallengesIff(policy: Policy)
    ensures (forall createdAt, now :: 0 <= createdAt < U64 && 0 <= now < U64 && ChallengeWindow(createdAt, now) ==>
                                      Keeps(policy, createdAt, now)) <==>
            (policy.Rolling? ==> policy.days >= MINIMUM_DAYS)
  {
    if policy.Rolling? {
      if policy.days >= MINIMUM_DAYS {
        WindowGrows(MINIMUM_DAYS, policy.days);
      } else {
        var edge := Window(MINIMUM_DAYS);
        assert Age(0, edge) == edge && ChallengeWindow(0, edge);
        assert !Keeps(policy, 0, edge);
      }
    }
  }

  lemma WindowGrows(d: nat, e: nat)
    requires d <= e
    ensures Window(d) <= Window(e)
  {
    assert d * MILLIS_PER_DAY <= e * MILLIS_PER_DAY;
  }

  /** Whatever can be challenged at a moment could be kept at every moment before it. */
  lemma ChallengedWasAlwaysKept(policy: Policy, createdAt: nat, earlier: nat, now: nat)
    requires policy.Rolling? ==> policy.days >= MINIMUM_DAYS
    requires earlier <= now && ChallengeWindow(createdAt, now)
    ensures Keeps(policy, createdAt, earlier)
  {
    if policy.Rolling? {
      WindowGrows(MINIMUM_DAYS, policy.days);
    }
  }

  // ---- Reading the setting ----

  predicate IsDigit(c: char) {
    '0' <= c <= '9'
  }

  predicate IsNumeral(s: string) {
    s != [] && forall i :: 0 <= i < |s| ==> IsDigit(s[i])
  }

  function ValueOf(s: string): nat {
    if s == [] then 0
    else 10 * ValueOf(s[..|s| - 1]) + (if IsDigit(s[|s| - 1]) then s[|s| - 1] as int - '0' as int else 0)
  }

  /** The digits of an input that may start with a plus sign. */
  function Unsigned(s: string): string {
    if s != [] && s[0] == '+' then s[1..] else s
  }

  function Lower(c: char): char {
    if 'A' <= c <= 'Z' then (c as int + 32) as char else c
  }

  predicate SaysArchival(s: string) {
    |s| == |"archival"| && forall i :: 0 <= i < |s| ==> Lower(s[i]) == "archival"[i]
  }

  /** Reads digits left to right and gives up on the first that is not one or that overflows the word. */
  function ParseDigits(s: string): Option<nat> {
    if s == [] then Some(0)
    else
      match ParseDigits(s[..|s| - 1])
      case None => None
      case Some(v) =>
        var last := s[|s| - 1];
        if !IsDigit(last) then None
        else
          var next := 10 * v + (last as int - '0' as int);
          if next < U64 then Some(next) else None
  }

  function ParseWord(s: string): Option<nat> {
    if Unsigned(s) == [] then None else ParseDigits(Unsigned(s))
  }

  function Parse(s: string): Result<Policy, ParseError> {
    if SaysArchival(s) then Ok(Archival)
    else
      match ParseWord(s)
      case None => Err(NotANumber)
      case Some(days) => if days < MINIMUM_DAYS then Err(BelowMinimum) else Ok(Rolling(days))
  }

  /** Checking for overflow digit by digit comes to checking the number. */
  lemma {:induction false} ParseDigitsIff(s: string)
    ensures ParseDigits(s) ==
      if (forall i :: 0 <= i < |s| ==> IsDigit(s[i])) && ValueOf(s) < U64 then Some(ValueOf(s)) else None
  {
    if s != [] {
      var rest := s[..|s| - 1];
      ParseDigitsIff(rest);
      assert forall i :: 0 <= i < |rest| ==> rest[i] == s[i];
    }
  }

  /** What the setting means, for every string: which settings are read as what, and which error the others get. */
  lemma ParseMeans(s: string)
    ensures Parse(s) == Ok(Archival) <==>
      |s| == 8 && forall i :: 0 <= i < 8 ==> s[i] == "archival"[i] || s[i] == "ARCHIVAL"[i]
    ensures forall days: nat :: Parse(s) == Ok(Rolling(days)) <==> SpellsDays(s, days) && 30 <= days < U64
    ensures Parse(s) == Err(BelowMinimum) <==> exists days: nat :: SpellsDays(s, days) && days < 30
    ensures Parse(s).Ok? || Parse(s) == Err(BelowMinimum) || Parse(s) == Err(NotANumber)
  {
    ParseDigitsIff(Unsigned(s));
    ArchivalMeans(s);
    forall days: nat
      ensures SpellsDays(s, days) <==> IsNumeral(Unsigned(s)) && ValueOf(Unsigned(s)) == days
    {
      UnsignedMeans(s, days);
    }
    if SaysArchival(s) {
      assert Lower(s[0]) == 'a' && !IsDigit(s[0]);
      assert Unsigned(s) == s;
    }
    if Parse(s) == Err(BelowMinimum) {
      assert SpellsDays(s, ValueOf(Unsigned(s)));
    }
  }

  /** Digits worth `days`, with or without a plus sign in front. */
  ghost predicate SpellsDays(s: string, days: nat) {
    exists digits :: (s == digits || s == "+" + digits) && IsNumeral(digits) && ValueOf(digits) == days
  }

  lemma UnsignedMeans(s: string, days: nat)
    ensures SpellsDays(s, days) <==> IsNumeral(Unsigned(s)) && ValueOf(Unsigned(s)) == days
  {
    if s != [] && s[0] == '+' {
      assert s == "+" + s[1..];
    }
    if digits :| (s == digits || s == "+" + digits) && IsNumeral(digits) && ValueOf(digits) == days {
      assert s == digits ==> IsDigit(s[0]);
      assert s == "+" + digits ==> s[0] == '+' && s[1..] == digits;
    }
  }

  lemma ArchivalMeans(s: string)
    ensures SaysArchival(s) <==>
      |s| == 8 && forall i :: 0 <= i < 8 ==> s[i] == "archival"[i] || s[i] == "ARCHIVAL"[i]
  {
    if |s| == 8 {
      forall i | 0 <= i < 8
        ensures Lower(s[i]) == "archival"[i] <==> s[i] == "archival"[i] || s[i] == "ARCHIVAL"[i]
      {
        LowerMeans(s[i], "archival"[i], "ARCHIVAL"[i]);
      }
    }
  }

  lemma LowerMeans(c: char, lower: char, upper: char)
    requires 'a' <= lower <= 'z' && upper as int + 32 == lower as int
    ensures Lower(c) == lower <==> c == lower || c == upper
  {
  }

  /** No setting that is accepted can be caught short by a challenge. */
  lemma AcceptedSettingsCoverChallenges(s: string, createdAt: nat, earlier: nat, now: nat)
    requires Parse(s).Ok?
    requires earlier <= now && ChallengeWindow(createdAt, now)
    ensures Keeps(Parse(s).value, createdAt, earlier)
  {
    ChallengedWasAlwaysKept(Parse(s).value, createdAt, earlier, now);
  }

  function Show(n: nat): (s: string)
    ensures IsNumeral(s)
  {
    var digit := ('0' as int + n % 10) as char;
    if n < 10 then [digit] else Show(n / 10) + [digit]
  }

  lemma {:induction false} ShownValue(n: nat)
    ensures ValueOf(Show(n)) == n
  {
    var s := Show(n);
    if n < 10 {
      assert s[..|s| - 1] == [];
    } else {
      ShownValue(n / 10);
      assert s[..|s| - 1] == Show(n / 10);
    }
  }

  /** A number of days at or above the floor, written out, with or without a plus sign, is read back as itself. */
  lemma DaysRoundTrip(n: nat)
    requires MINIMUM_DAYS <= n < U64
    ensures Parse(Show(n)) == Ok(Rolling(n)) && Parse("+" + Show(n)) == Ok(Rolling(n))
  {
    var s := Show(n);
    ShownValue(n);
    ParseDigitsIff(s);
    assert IsDigit(s[0]);
    assert Unsigned(s) == s;
    assert Unsigned("+" + s) == s;
    assert ("+" + s)[0] == '+';
    assert Lower('+') != 'a' && Lower(s[0]) != 'a';
  }
}
