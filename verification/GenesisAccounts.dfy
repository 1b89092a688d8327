/** Pre-funding accounts in a genesis document: balances, total supply and auth accounts. */
module GenesisAccounts {
  import opened Wrappers
  import opened Bytes

  /** A coin entry; its amount is the text in the document, missing when it is not a string. */
  datatype Coin = Coin(denom: string, amount: Option<string>)

  datatype Balance = Balance(address: string, coins: seq<Coin>)

  datatype AuthAccount = BaseAccount(address: string) | OtherAccount(json: string)

  /** The three arrays that an injection touches; each may be missing from the document. */
  datatype Accounts = Accounts(balances: Option<seq<Balance>>, supply: Option<seq<Coin>>,
                               auth: Option<seq<AuthAccount>>)

  datatype Extra = Extra(address: string, uact: u64, uakt: u64)

  // ---- amounts as texts ----

  predicate AllDecimal(s: string) {
    forall i :: 0 <= i < |s| ==> '0' <= s[i] <= '9'
  }

  function DecimalValue(s: string): nat
    requires AllDecimal(s)
  {
    if |s| == 0 then 0
    else 10 * DecimalValue(s[..|s| - 1]) + (s[|s| - 1] as int - '0' as int)
  }

  /** A decimal numeral, with or without a plus sign; of any size. */
  function Numeral(s: string): Option<nat> {
    var digits := if |s| > 0 && s[0] == '+' then s[1..] else s;
    if |digits| > 0 && AllDecimal(digits) then Some(DecimalValue(digits)) else None
  }

  /** What the program takes an amount for (`parse::<u64>`): zero if it is no numeral or too large for 64 bits. */
  function Read(amount: Option<string>): u64 {
    if amount == None then 0
    else
      match Numeral(amount.value)
      case Some(v) => if v < 0x1_0000_0000_0000_0000 then v else 0
      case None => 0
  }

  /** What an amount is worth: its decimal value, of any size and sign. */
  function Worth(amount: Option<string>): int {
    if amount == None then 0
    else if |amount.value| > 0 && amount.value[0] == '-' then
      var digits := amount.value[1..];
      if |digits| > 0 && AllDecimal(digits) then 0 - DecimalValue(digits) else 0
    else Numeral(amount.value).UnwrapOr(0)
  }

  /** `to_string` of an unsigned number. */
  function ToText(v: nat): (s: string)
    ensures |s| > 0 && AllDecimal(s)
  {
    var digit := ('0' as int + v % 10) as char;
    if v < 10 then [digit] else ToText(v / 10) + [digit]
  }

  lemma {:induction false} ToTextReadsBack(v: nat)
    ensures DecimalValue(ToText(v)) == v
  {
    var s := ToText(v);
    if v >= 10 {
      ToTextReadsBack(v / 10);
      assert s[..|s| - 1] == ToText(v / 10);
    } else {
      assert s[..|s| - 1] == [];
    }
  }

  /** A decimal numeral as `to_string` writes it: digits only, and no zero in front of others. */
  predicate IsCanonical(s: string) {
    AllDecimal(s) && |s| > 0 && (|s| > 1 ==> s[0] != '0')
  }

  /** The text of a number is the one canonical numeral with its value. */
  lemma {:induction false} ToTextIsCanonical(s: string, v: nat)
    ensures s == ToText(v) <==> IsCanonical(s) && DecimalValue(s) == v
    decreases v
  {
    TextIsCanonical(v);
    ToTextReadsBack(v);
    if IsCanonical(s) && DecimalValue(s) == v {
      CanonicalIsText(s);
    }
  }

  lemma {:induction false} TextIsCanonical(v: nat)
    ensures IsCanonical(ToText(v)) && (v > 0 ==> ToText(v)[0] != '0')
  {
    if v >= 10 {
      TextIsCanonical(v / 10);
    }
  }

  lemma {:induction false} CanonicalIsText(s: string)
    requires IsCanonical(s)
    ensures ToText(DecimalValue(s)) == s && (s[0] != '0' ==> DecimalValue(s) > 0)
  {
    var front := s[..|s| - 1];
    if |s| > 1 {
      CanonicalIsText(front);
      assert s == front + [s[|s| - 1]];
    } else {
      assert front == [] && s == [s[0]];
    }
  }

  /** A plus sign and leading zeros are read over; a minus sign negates the worth and is read as zero. */
  lemma SignsAndZeros(digits: string)
    requires AllDecimal(digits) && |digits| > 0
    ensures Read(Some("+" + digits)) == Read(Some(digits)) == Read(Some("0" + digits))
    ensures Worth(Some("+" + digits)) == Worth(Some(digits)) == Worth(Some("0" + digits)) == DecimalValue(digits)
    ensures Worth(Some("-" + digits)) == 0 - DecimalValue(digits) && Read(Some("-" + digits)) == 0
  {
    hide DecimalValue;
    LeadingZero(digits);
    PlusOrMinus(digits);
    assert digits[0] != '+' && digits[0] != '-' && ("0" + digits)[0] == '0';
    hide AllDecimal;
    assert Numeral(digits) == Some(DecimalValue(digits));
    assert Numeral("0" + digits) == Some(DecimalValue(digits));
  }

  lemma {:induction false} LeadingZero(digits: string)
    requires AllDecimal(digits)
    ensures AllDecimal("0" + digits) && DecimalValue("0" + digits) == DecimalValue(digits)
  {
    var more := "0" + digits;
    if |digits| == 0 {
      assert more[..0] == [];
    } else {
      var front := digits[..|digits| - 1];
      LeadingZero(front);
      assert more[..|more| - 1] == "0" + front;
    }
  }

  lemma PlusOrMinus(digits: string)
    requires AllDecimal(digits) && |digits| > 0
    ensures Numeral("+" + digits) == Some(DecimalValue(digits))
    ensures ("+" + digits)[0] == '+' && ("-" + digits)[0] == '-' && ("-" + digits)[1..] == digits
    ensures Numeral("-" + digits) == None
  {
    hide DecimalValue;
    assert ("+" + digits)[1..] == digits && ("-" + digits)[1..] == digits;
    assert !AllDecimal("-" + digits) by {
      assert ("-" + digits)[0] == '-';
    }
  }

  /** Without digits, or with another character, an amount is worth nothing and read as zero. */
  lemma NoNumeral(s: string, i: nat)
    requires i < |s| && !('0' <= s[i] <= '9') && (i > 0 || (s[0] != '+' && s[0] != '-'))
    ensures Read(Some(s)) == 0 && Worth(Some(s)) == 0
    ensures Read(Some("")) == 0 && Read(Some("+")) == 0 && Read(Some("-")) == 0
  {
    if s[0] == '+' || s[0] == '-' {
      assert s[1..][i - 1] == s[i];
    }
    assert !AllDecimal("-") by {
      assert "-"[0] == '-';
    }
  }

  lemma WorthOfText(v: nat)
    ensures Worth(Some(ToText(v))) == v
    ensures Read(Some(ToText(v))) == if v < 0x1_0000_0000_0000_0000 then v else 0
  {
    ToTextReadsBack(v);
    assert '0' <= ToText(v)[0] <= '9';
  }

  /** The program reads exactly the amounts from zero to the largest `u64` for what they are worth. */
  lemma ReadsWorthBelowTwoTo64(amount: Option<string>)
    ensures Read(amount) == Worth(amount) <==> 0 <= Worth(amount) < 0x1_0000_0000_0000_0000
    ensures Read(amount) != Worth(amount) ==> Read(amount) == 0
  {
  }

  // ---- what an injection makes of the arrays ----

  /** The coins of the new balance: only amounts above zero, uact first. */
  function NewCoins(e: Extra): seq<Coin> {
    (if e.uact > 0 then [Coin("uact", Some(ToText(e.uact)))] else [])
    + (if e.uakt > 0 then [Coin("uakt", Some(ToText(e.uakt)))] else [])
  }

  /** Lexicographic order, as coins are sorted. */
  predicate Before(x: string, y: string) {
    |y| > 0 && (|x| == 0 || x[0] < y[0] || (x[0] == y[0] && Before(x[1..], y[1..])))
  }

  lemma UactBeforeUakt()
    ensures Before("uact", "uakt") && "uact" != "uakt"
  {
    assert "uact"[1..] == "act" && "uakt"[1..] == "akt" && "act"[1..] == "ct" && "akt"[1..] == "kt";
    assert "uact"[2] != "uakt"[2];
  }

  /** The amount is the canonical numeral of a number above zero. */
  predicate IsAmount(amount: Option<string>, v: nat) {
    v > 0 && amount.Some? && IsCanonical(amount.value) && DecimalValue(amount.value) == v
  }

  predicate IsGrant(c: Coin, e: Extra) {
    (c.denom == "uact" && IsAmount(c.amount, e.uact)) || (c.denom == "uakt" && IsAmount(c.amount, e.uakt))
  }

  /** Sorted coins, one for each denomination of which something is granted, with just that amount. */
  predicate HoldsGrant(coins: seq<Coin>, e: Extra) {
    && (forall i, j :: 0 <= i < j < |coins| ==> Before(coins[i].denom, coins[j].denom))
    && (forall i :: 0 <= i < |coins| ==> IsGrant(coins[i], e))
    && (e.uact > 0 ==> exists i :: 0 <= i < |coins| && coins[i].denom == "uact")
    && (e.uakt > 0 ==> exists i :: 0 <= i < |coins| && coins[i].denom == "uakt")
  }

  lemma NewCoinsHoldGrant(e: Extra)
    ensures HoldsGrant(NewCoins(e), e)
  {
    hide ToText, IsAmount, Before, IsGrant;
    var c, k := Coin("uact", Some(ToText(e.uact))), Coin("uakt", Some(ToText(e.uakt)));
    UactBeforeUakt();
    CoinIsGrant(c, e, e.uact);
    CoinIsGrant(k, e, e.uakt);
    var coins := NewCoins(e);
    if e.uact > 0 && e.uakt > 0 {
      assert coins == [c, k] && coins[0] == c && coins[1] == k;
    } else if e.uact > 0 {
      assert coins == [c] && coins[0] == c;
    } else if e.uakt > 0 {
      assert coins == [k] && coins[0] == k;
    }
  }

  lemma CoinIsGrant(c: Coin, e: Extra, v: nat)
    requires c.amount == Some(ToText(v))
    requires (c.denom == "uact" && v == e.uact) || (c.denom == "uakt" && v == e.uakt)
    ensures v > 0 ==> IsGrant(c, e)
  {
    hide ToText, IsAmount;
    TextIsAmount(v);
  }

  lemma TextIsAmount(v: nat)
    ensures v > 0 ==> IsAmount(Some(ToText(v)), v)
  {
    ToTextIsCanonical(ToText(v), v);
  }

  function FindDenom(supply: seq<Coin>, denom: string): (i: nat)
    ensures i <= |supply|
    ensures i < |supply| ==> supply[i].denom == denom
    ensures forall k :: 0 <= k < i ==> supply[k].denom != denom
  {
    if |supply| == 0 || supply[0].denom == denom then 0 else 1 + FindDenom(supply[1..], denom)
  }

  /**
   * Adds to the first entry of the denomination, or appends one. Nothing when a `u64` sum overflows, which
   * stops a build with overflow checks; a build without them, which wraps around, is not modelled.
   */
  function AddSupply(supply: seq<Coin>, denom: string, amount: u64): Option<seq<Coin>> {
    var i := FindDenom(supply, denom);
    if amount == 0 then Some(supply)
    else if i == |supply| then Some(supply + [Coin(denom, Some(ToText(amount)))])
    else
      var sum := (Read(supply[i].amount) as int) + amount;
      if sum < 0x1_0000_0000_0000_0000 then Some(supply[i := Coin(denom, Some(ToText(sum)))]) else None
  }

  function AddBoth(supply: Option<seq<Coin>>, e: Extra): Option<Option<seq<Coin>>> {
    if supply == None then Some(None)
    else
      match AddSupply(supply.value, "uact", e.uact)
      case None => None
      case Some(s) =>
        match AddSupply(s, "uakt", e.uakt)
        case None => None
        case Some(t) => Some(Some(t))
  }

  /** Coins of a denomination the list did not have, if anything of it is granted. */
  predicate NewEntry(before: seq<Coin>, denom: string, amount: u64) {
    amount > 0 && forall c :: c in before ==> c.denom != denom
  }

  predicate IsFirst(before: seq<Coin>, i: nat, denom: string) {
    i < |before| && before[i].denom == denom && forall k :: 0 <= k < i ==> before[k].denom != denom
  }

  /** What the entry at a place becomes: only first entries of granted denominations change. */
  predicate EntryGrows(before: seq<Coin>, i: nat, after: Coin, e: Extra)
    requires i < |before|
  {
    && after.denom == before[i].denom
    && (if IsFirst(before, i, "uact") && e.uact > 0
        then IsAmount(after.amount, (Read(before[i].amount) as int) + e.uact)
        else if IsFirst(before, i, "uakt") && e.uakt > 0
        then IsAmount(after.amount, (Read(before[i].amount) as int) + e.uakt)
        else after.amount == before[i].amount)
  }

  /** Entries keep their places; new denominations follow, uact first. */
  predicate SupplyGrows(before: seq<Coin>, after: seq<Coin>, e: Extra) {
    var newAct, newAkt := NewEntry(before, "uact", e.uact), NewEntry(before, "uakt", e.uakt);
    && |after| == |before| + (if newAct then 1 else 0) + (if newAkt then 1 else 0)
    && (forall i: nat :: i < |before| ==> EntryGrows(before, i, after[i], e))
    && (newAct ==> after[|before|].denom == "uact" && IsAmount(after[|before|].amount, e.uact))
    && (newAkt ==> after[|after| - 1].denom == "uakt" && IsAmount(after[|after| - 1].amount, e.uakt))
  }

  lemma SupplyGrowsByGrant(before: seq<Coin>, e: Extra)
    requires AddBoth(Some(before), e).Some?
    ensures AddBoth(Some(before), e).value.Some?
    ensures SupplyGrows(before, AddBoth(Some(before), e).value.value, e)
  {
    var s := AddSupply(before, "uact", e.uact).value;
    var t := AddSupply(s, "uakt", e.uakt).value;
    hide SupplyGrows, Added, AddSupply;
    AddedEntry(before, "uact", e.uact);
    AddedEntry(s, "uakt", e.uakt);
    SupplyGrowsInTwoSteps(before, s, t, e);
  }

  lemma SupplyGrowsInTwoSteps(before: seq<Coin>, s: seq<Coin>, t: seq<Coin>, e: Extra)
    requires Added(before, s, "uact", e.uact) && Added(s, t, "uakt", e.uakt)
    ensures SupplyGrows(before, t, e)
  {
    UactBeforeUakt();
    hide IsAmount, Read, NewEntry, EntryGrows, IsFirst, Before;
    SameNewEntry(before, s, "uakt", e.uakt);
    if |s| > |before| {
      NotFirst(s, |before|, "uakt");
    }
    forall i: nat | i < |before|
      ensures EntryGrows(before, i, t[i], e)
    {
      EntryGrowsByGrant(before, s, t, i, e);
    }
  }

  lemma NotFirst(s: seq<Coin>, i: nat, denom: string)
    requires i < |s| && s[i].denom != denom
    ensures !IsFirst(s, i, denom)
  {
  }

  lemma EntryGrowsByGrant(before: seq<Coin>, s: seq<Coin>, t: seq<Coin>, i: nat, e: Extra)
    requires i < |before| <= |s| <= |t| && forall k :: 0 <= k <= i ==> s[k].denom == before[k].denom
    requires s[i].denom == before[i].denom == t[i].denom
    requires if IsFirst(before, i, "uact") && e.uact > 0
             then IsAmount(s[i].amount, (Read(before[i].amount) as int) + e.uact)
             else s[i] == before[i]
    requires if IsFirst(s, i, "uakt") && e.uakt > 0
             then IsAmount(t[i].amount, (Read(s[i].amount) as int) + e.uakt)
             else t[i] == s[i]
    ensures EntryGrows(before, i, t[i], e)
  {
    UactBeforeUakt();
    hide IsAmount, Read;
  }

  lemma SameNewEntry(before: seq<Coin>, s: seq<Coin>, denom: string, amount: u64)
    requires |s| >= |before| && forall i :: 0 <= i < |before| ==> s[i].denom == before[i].denom
    requires forall i :: |before| <= i < |s| ==> s[i].denom != denom
    ensures NewEntry(s, denom, amount) <==> NewEntry(before, denom, amount)
  {
    forall i | 0 <= i < |before|
      ensures s[i] in s && before[i] in before
    {
    }
  }

  lemma FoundIsFirst(supply: seq<Coin>, denom: string, amount: u64)
    ensures forall i: nat :: i < |supply| ==> (IsFirst(supply, i, denom) <==> i == FindDenom(supply, denom))
    ensures NewEntry(supply, denom, amount) <==> amount > 0 && FindDenom(supply, denom) == |supply|
  {
    var i := FindDenom(supply, denom);
    assert i < |supply| ==> supply[i] in supply;
  }

  /** One addition: the first entry of the denomination is overwritten, or one is appended. */
  predicate Added(supply: seq<Coin>, after: seq<Coin>, denom: string, amount: u64) {
    && |after| == |supply| + (if NewEntry(supply, denom, amount) then 1 else 0)
    && (forall i: nat :: i < |supply| ==>
          after[i].denom == supply[i].denom
          && (if IsFirst(supply, i, denom) && amount > 0
              then IsAmount(after[i].amount, (Read(supply[i].amount) as int) + amount)
              else after[i] == supply[i]))
    && (|after| > |supply| ==> after[|supply|].denom == denom && IsAmount(after[|supply|].amount, amount))
  }

  lemma AddedEntry(supply: seq<Coin>, denom: string, amount: u64)
    requires AddSupply(supply, denom, amount).Some?
    ensures Added(supply, AddSupply(supply, denom, amount).value, denom, amount)
  {
    hide ToText, Read, IsAmount, NewEntry, IsFirst;
    var i := FindDenom(supply, denom);
    FoundIsFirst(supply, denom, amount);
    if amount > 0 && i == |supply| {
      TextIsAmount(amount);
    } else if amount > 0 {
      TextIsAmount((Read(supply[i].amount) as int) + amount);
    }
  }

  function Append<T>(s: Option<seq<T>>, x: T): Option<seq<T>> {
    match s
    case None => None
    case Some(items) => Some(items + [x])
  }

  /** One injection; nothing when the sum of a supply entry overflows and the program panics. */
  function Inject(a: Accounts, e: Extra): Option<Accounts> {
    if e.uact == 0 && e.uakt == 0 then Some(a)
    else
      match AddBoth(a.supply, e)
      case None => None
      case Some(supply) =>
        Some(Accounts(Append(a.balances, Balance(e.address, NewCoins(e))), supply,
                      Append(a.auth, BaseAccount(e.address))))
  }

  /** Each array that is present: one more balance with just the grant, the supply grown by it, one more account. */
  predicate GrantIsEntered(before: Accounts, after: Accounts, e: Extra) {
    && (match before.balances
        case None => after.balances == None
        case Some(balances) =>
          && after.balances.Some? && |after.balances.value| == |balances| + 1
          && balances <= after.balances.value
          && after.balances.value[|balances|].address == e.address
          && HoldsGrant(after.balances.value[|balances|].coins, e))
    && (match before.supply
        case None => after.supply == None
        case Some(supply) => after.supply.Some? && SupplyGrows(supply, after.supply.value, e))
    && (match before.auth
        case None => after.auth == None
        case Some(auth) => after.auth == Some(auth + [BaseAccount(e.address)]))
  }

  lemma InjectionEntersGrant(a: Accounts, e: Extra)
    ensures e.uact == 0 && e.uakt == 0 ==> Inject(a, e) == Some(a)
    ensures Inject(a, e).Some? && (e.uact > 0 || e.uakt > 0) ==> GrantIsEntered(a, Inject(a, e).value, e)
  {
    hide HoldsGrant, SupplyGrows, NewCoins, AddBoth;
    if Inject(a, e).Some? && (e.uact > 0 || e.uakt > 0) {
      NewCoinsHoldGrant(e);
      if a.supply.Some? {
        SupplyGrowsByGrant(a.supply.value, e);
      } else {
        AddToNoSupply(e);
      }
    }
  }

  lemma AddToNoSupply(e: Extra)
    ensures AddBoth(None, e) == Some(None)
  {
  }

  function InjectAll(a: Accounts, extras: seq<Extra>): Option<Accounts>
    decreases |extras|
  {
    if |extras| == 0 then Some(a)
    else
      match Inject(a, extras[0])
      case None => None
      case Some(next) => InjectAll(next, extras[1..])
  }

  // ---- the in-place form ----

  class Genesis {
    var accounts: Accounts

    constructor (accounts: Accounts)
      ensures this.accounts == accounts
    {
      this.accounts := accounts;
    }

    /** The supply entry of one denomination: found and overwritten, or pushed. */
    method AddToSupply(denom: string, amount: u64) returns (ok: bool)
      requires accounts.supply.Some?
      modifies this
      ensures ok <==> AddSupply(old(accounts.supply.value), denom, amount).Some?
      ensures ok ==> accounts == old(accounts).(supply := AddSupply(old(accounts.supply.value), denom, amount))
    {
      if amount == 0 {
        return true;
      }
      var arr := accounts.supply.value;
      var i := 0;
      while i < |arr| && arr[i].denom != denom
        invariant 0 <= i <= FindDenom(arr, denom)
      {
        i := i + 1;
      }
      if i < |arr| {
        var current := Read(arr[i].amount);
        if (current as int) + amount >= 0x1_0000_0000_0000_0000 {
          return false;
        }
        accounts := accounts.(supply := Some(arr[i := Coin(denom, Some(ToText((current as int) + amount)))]));
      } else {
        accounts := accounts.(supply := Some(arr + [Coin(denom, Some(ToText(amount)))]));
      }
      return true;
    }

    /** False when a supply sum overflows, which stops a program built with overflow checks. */
    method InjectGenesisAccount(e: Extra) returns (ok: bool)
      modifies this
      ensures ok <==> Inject(old(accounts), e).Some?
      ensures ok ==> Some(accounts) == Inject(old(accounts), e)
      ensures e.uact == 0 && e.uakt == 0 ==> ok && accounts == old(accounts)
      ensures ok && (e.uact > 0 || e.uakt > 0) ==> GrantIsEntered(old(accounts), accounts, e)
    {
      InjectionEntersGrant(accounts, e);
      hide GrantIsEntered, ToText;
      var coins: seq<Coin> := [];
      if e.uact > 0 {
        coins := coins + [Coin("uact", Some(ToText(e.uact)))];
      }
      if e.uakt > 0 {
        coins := coins + [Coin("uakt", Some(ToText(e.uakt)))];
      }
      if |coins| == 0 {
        return true;
      }
      assert coins == NewCoins(e);
      if accounts.balances.Some? {
        accounts := accounts.(balances := Some(accounts.balances.value + [Balance(e.address, coins)]));
      }
      if accounts.supply.Some? {
        ok := AddToSupply("uact", e.uact);
        if !ok {
          return;
        }
        ok := AddToSupply("uakt", e.uakt);
        if !ok {
          return;
        }
      }
      if accounts.auth.Some? {
        accounts := accounts.(auth := Some(accounts.auth.value + [BaseAccount(e.address)]));
      }
      return true;
    }

    method InjectExtraAccounts(extras: seq<Extra>) returns (ok: bool)
      modifies this
      ensures ok <==> InjectAll(old(accounts), extras).Some?
      ensures ok ==> Some(accounts) == InjectAll(old(accounts), extras)
    {
      assert extras[0..] == extras;
      for i := 0 to |extras|
        invariant InjectAll(accounts, extras[i..]) == InjectAll(old(accounts), extras)
      {
        assert extras[i..][1..] == extras[i + 1..];
        ok := InjectGenesisAccount(extras[i]);
        if !ok {
          return;
        }
      }
      return true;
    }
  }

  // ---- overflow ----

  function Granted(e: Extra, denom: string): nat {
    if denom == "uact" then e.uact else if denom == "uakt" then e.uakt else 0
  }

  function GrantedAll(extras: seq<Extra>, denom: string): nat {
    if |extras| == 0 then 0 else Granted(extras[0], denom) + GrantedAll(extras[1..], denom)
  }

  /** The amount in the supply entry that injections of a denomination add to, if there is one. */
  function FirstAmount(supply: seq<Coin>, denom: string): Option<string> {
    var i := FindDenom(supply, denom);
    if i < |supply| then supply[i].amount else None
  }

  lemma {:induction false} FirstIsUnique(supply: seq<Coin>, denom: string, i: nat)
    requires i <= |supply| && (i < |supply| ==> supply[i].denom == denom)
    requires forall k :: 0 <= k < i ==> supply[k].denom != denom
    ensures FindDenom(supply, denom) == i
  {
    if i > 0 {
      assert supply[0].denom != denom;
      FirstIsUnique(supply[1..], denom, i - 1);
    }
  }

  /** The first entry of a denomination gets the decimal text of the sum; those of others stay. */
  lemma AddSupplyMovesFirst(supply: seq<Coin>, added: string, amount: u64, denom: string)
    ensures AddSupply(supply, added, amount).Some?
       <==> (Read(FirstAmount(supply, added)) as int) + amount < 0x1_0000_0000_0000_0000
    ensures AddSupply(supply, added, amount).Some? ==>
              FirstAmount(AddSupply(supply, added, amount).value, denom)
              == if denom == added && amount > 0
                 then Some(ToText((Read(FirstAmount(supply, added)) as int) + amount))
                 else FirstAmount(supply, denom)
  {
    hide ToText, Read;
    assert Read(None) == 0 by { ReadNothing(); }
    var i, j := FindDenom(supply, added), FindDenom(supply, denom);
    if amount > 0 && AddSupply(supply, added, amount).Some? {
      var after := AddSupply(supply, added, amount).value;
      assert forall k :: 0 <= k < |supply| ==> after[k].denom == supply[k].denom;
      FirstIsUnique(after, denom, if j < |supply| || denom == added then j else |after|);
    }
  }

  lemma ReadNothing()
    ensures Read(None) == 0 && Worth(None) == 0
  {
  }

  /** What the program reads in the entry grows by the amount. */
  lemma AddSupplyGrows(supply: seq<Coin>, added: string, amount: u64, denom: string)
    requires AddSupply(supply, added, amount).Some?
    ensures Read(FirstAmount(AddSupply(supply, added, amount).value, denom))
         == (Read(FirstAmount(supply, denom)) as int) + if denom == added then amount else 0
  {
    hide ToText, Read, AddSupply, FirstAmount;
    AddSupplyMovesFirst(supply, added, amount, denom);
    WorthOfText((Read(FirstAmount(supply, added)) as int) + amount);
  }

  /** The entry of the denomination can hold all that is granted. */
  predicate Fits(supply: seq<Coin>, extras: seq<Extra>, denom: string) {
    (Read(FirstAmount(supply, denom)) as int) + GrantedAll(extras, denom) < 0x1_0000_0000_0000_0000
  }

  /** An overflow occurs exactly when a supply entry, as the program reads it, cannot hold all that is granted. */
  lemma {:induction false} OverflowCondition(a: Accounts, extras: seq<Extra>)
    ensures InjectAll(a, extras).Some?
       <==> a.supply == None || (Fits(a.supply.value, extras, "uact") && Fits(a.supply.value, extras, "uakt"))
    decreases |extras|
  {
    assert "uact"[2] != "uakt"[2];
    if |extras| > 0 {
      var e := extras[0];
      hide Read, FirstAmount, AddSupply;
      if a.supply.Some? {
        var supply := a.supply.value;
        AddSupplyMovesFirst(supply, "uact", e.uact, "uakt");
        if AddSupply(supply, "uact", e.uact).Some? {
          var s := AddSupply(supply, "uact", e.uact).value;
          AddSupplyMovesFirst(s, "uakt", e.uakt, "uact");
          AddSupplyGrows(supply, "uact", e.uact, "uact");
          AddSupplyGrows(supply, "uact", e.uact, "uakt");
          if AddSupply(s, "uakt", e.uakt).Some? {
            AddSupplyGrows(s, "uakt", e.uakt, "uact");
            AddSupplyGrows(s, "uakt", e.uakt, "uakt");
          }
        }
      }
      if Inject(a, e).Some? {
        OverflowCondition(Inject(a, e).value, extras[1..]);
      }
    }
  }

  // ---- conservation ----

  /** What the coins of one denomination are worth together. */
  function TotalOf(coins: seq<Coin>, denom: string): int {
    if |coins| == 0 then 0
    else (if coins[0].denom == denom then Worth(coins[0].amount) else 0) + TotalOf(coins[1..], denom)
  }

  function TotalBalance(balances: seq<Balance>, denom: string): int {
    if |balances| == 0 then 0
    else TotalOf(balances[0].coins, denom) + TotalBalance(balances[1..], denom)
  }

  function SupplyTotal(a: Accounts, denom: string): int {
    TotalOf(a.supply.UnwrapOr([]), denom)
  }

  function BalanceTotal(a: Accounts, denom: string): int {
    TotalBalance(a.balances.UnwrapOr([]), denom)
  }

  lemma {:induction false} TotalOfAppend(x: seq<Coin>, y: seq<Coin>, denom: string)
    ensures TotalOf(x + y, denom) == TotalOf(x, denom) + TotalOf(y, denom)
  {
    if |x| == 0 {
      assert x + y == y;
    } else {
      TotalOfAppend(x[1..], y, denom);
      assert (x + y)[1..] == x[1..] + y;
    }
  }

  lemma {:induction false} TotalBalanceAppend(x: seq<Balance>, b: Balance, denom: string)
    ensures TotalBalance(x + [b], denom) == TotalBalance(x, denom) + TotalOf(b.coins, denom)
  {
    if |x| == 0 {
      assert x + [b] == [b] && [b][1..] == [];
    } else {
      TotalBalanceAppend(x[1..], b, denom);
      assert (x + [b])[1..] == x[1..] + [b];
    }
  }

  lemma TotalOfOne(c: Coin, denom: string)
    ensures TotalOf([c], denom) == if c.denom == denom then Worth(c.amount) else 0
  {
    assert [c][1..] == [];
  }

  /** What an entry loses when it is added to: it is overwritten with what the program reads plus the sum. */
  function Lost(supply: seq<Coin>, denom: string): int {
    Worth(FirstAmount(supply, denom)) - Read(FirstAmount(supply, denom))
  }

  lemma AddSupplyLoses(supply: seq<Coin>, added: string, amount: u64, denom: string)
    requires AddSupply(supply, added, amount).Some?
    ensures Lost(AddSupply(supply, added, amount).value, denom)
         == if denom == added && amount > 0 then 0 else Lost(supply, denom)
  {
    hide ToText, Read, Worth, AddSupply, FirstAmount;
    AddSupplyMovesFirst(supply, added, amount, denom);
    WorthOfText((Read(FirstAmount(supply, added)) as int) + amount);
  }

  lemma AddSupplyAdds(supply: seq<Coin>, added: string, amount: u64, denom: string)
    requires AddSupply(supply, added, amount).Some?
    ensures TotalOf(AddSupply(supply, added, amount).value, denom)
         == TotalOf(supply, denom) + if denom == added && amount > 0 then amount - Lost(supply, added) else 0
  {
    hide ToText, Worth, Read;
    ReadNothing();
    var i := FindDenom(supply, added);
    if amount > 0 {
      var after := AddSupply(supply, added, amount).value;
      if i == |supply| {
        WorthOfText(amount);
        TotalOfAppend(supply, [Coin(added, Some(ToText(amount)))], denom);
        TotalOfOne(Coin(added, Some(ToText(amount))), denom);
      } else {
        WorthOfText((Read(supply[i].amount) as int) + amount);
        TotalOfSplit(supply, i, denom);
        TotalOfSplit(after, i, denom);
        assert after[..i] == supply[..i] && after[i + 1..] == supply[i + 1..];
      }
    }
  }

  lemma TotalOfSplit(coins: seq<Coin>, i: nat, denom: string)
    requires i < |coins|
    ensures TotalOf(coins, denom) == TotalOf(coins[..i], denom)
              + (if coins[i].denom == denom then Worth(coins[i].amount) else 0) + TotalOf(coins[i + 1..], denom)
  {
    TotalOfAppend(coins[..i], coins[i..], denom);
    assert coins == coins[..i] + coins[i..] && coins[i..][1..] == coins[i + 1..];
  }

  lemma NewCoinsTotal(e: Extra, denom: string)
    ensures TotalOf(NewCoins(e), denom) == Granted(e, denom)
  {
    var x := if e.uact > 0 then [Coin("uact", Some(ToText(e.uact)))] else [];
    var y := if e.uakt > 0 then [Coin("uakt", Some(ToText(e.uakt)))] else [];
    hide ToText, Worth, Read;
    WorthOfText(e.uact);
    WorthOfText(e.uakt);
    TotalOfAppend(x, y, denom);
    TotalOfOne(Coin("uact", Some(ToText(e.uact))), denom);
    TotalOfOne(Coin("uakt", Some(ToText(e.uakt))), denom);
    assert "uact"[2] != "uakt"[2];
  }

  /**
   * Balances grow by what is granted, where the document has the array. So does the supply, except that a
   * first entry that is added to loses whatever of its worth the program does not read.
   */
  lemma InjectGrants(a: Accounts, e: Extra, denom: string)
    requires Inject(a, e).Some?
    ensures var b, g := Inject(a, e).value, Granted(e, denom);
      && BalanceTotal(b, denom) == BalanceTotal(a, denom) + (if a.balances.Some? then g else 0)
      && SupplyTotal(b, denom) == SupplyTotal(a, denom) + SupplyGrowth(a, g, denom)
      && Unread(b, denom) == if g > 0 then 0 else Unread(a, denom)
  {
    hide ToText, Worth, Read, AddSupply, Lost;
    assert "uact"[2] != "uakt"[2];
    if e.uact > 0 || e.uakt > 0 {
      if a.supply.Some? {
        var s := AddSupply(a.supply.value, "uact", e.uact);
        AddSupplyAdds(a.supply.value, "uact", e.uact, denom);
        AddSupplyLoses(a.supply.value, "uact", e.uact, denom);
        AddSupplyAdds(s.value, "uakt", e.uakt, denom);
        AddSupplyLoses(s.value, "uakt", e.uakt, denom);
      }
      if a.balances.Some? {
        TotalBalanceAppend(a.balances.value, Balance(e.address, NewCoins(e)), denom);
        NewCoinsTotal(e, denom);
      }
    }
  }

  /** What the next injection into the supply of a denomination loses. */
  function Unread(a: Accounts, denom: string): int {
    if a.supply.Some? then Lost(a.supply.value, denom) else 0
  }

  function SupplyGrowth(a: Accounts, granted: nat, denom: string): int {
    if a.supply.Some? && granted > 0 then granted - Unread(a, denom) else 0
  }

  lemma PresenceIsKept(a: Accounts, e: Extra)
    requires Inject(a, e).Some?
    ensures var b := Inject(a, e).value;
      && (b.supply.Some? <==> a.supply.Some?)
      && (b.balances.Some? <==> a.balances.Some?)
      && (b.auth.Some? <==> a.auth.Some?)
  {
  }

  /** Over any list of accounts the loss occurs once, with the first grant of the denomination. */
  lemma {:induction false} InjectAllGrants(a: Accounts, extras: seq<Extra>, denom: string)
    requires InjectAll(a, extras).Some?
    ensures var b, g := InjectAll(a, extras).value, GrantedAll(extras, denom);
      && BalanceTotal(b, denom) == BalanceTotal(a, denom) + (if a.balances.Some? then g else 0)
      && SupplyTotal(b, denom) == SupplyTotal(a, denom) + SupplyGrowth(a, g, denom)
    decreases |extras|
  {
    hide Inject, Unread, BalanceTotal, SupplyTotal;
    if |extras| > 0 {
      InjectGrants(a, extras[0], denom);
      PresenceIsKept(a, extras[0]);
      InjectAllGrants(Inject(a, extras[0]).value, extras[1..], denom);
    }
  }

  /** The supply that no listed balance accounts for. */
  function Outside(a: Accounts, denom: string): int {
    SupplyTotal(a, denom) - BalanceTotal(a, denom)
  }

  /**
   * Conservation: supply minus the sum of all balances of a denomination is unchanged exactly when nothing of
   * it is granted, or the document has neither array, or it has both and the first supply entry of the
   * denomination, if there is one, is worth a 64-bit amount.
   */
  lemma SupplyIsConserved(a: Accounts, extras: seq<Extra>, denom: string)
    requires InjectAll(a, extras).Some?
    ensures Outside(InjectAll(a, extras).value, denom) == Outside(a, denom)
       <==> || GrantedAll(extras, denom) == 0
            || (a.supply == None && a.balances == None)
            || (a.supply.Some? && a.balances.Some?
                && 0 <= Worth(FirstAmount(a.supply.value, denom)) < 0x1_0000_0000_0000_0000)
  {
    hide InjectAll, BalanceTotal, SupplyTotal, Worth, Read, FirstAmount;
    InjectAllGrants(a, extras, denom);
    if a.supply.Some? {
      ReadsWorthBelowTwoTo64(FirstAmount(a.supply.value, denom));
      OverflowCondition(a, extras);
      OnlyTwoDenominations(extras, denom);
    }
  }

  lemma {:induction false} OnlyTwoDenominations(extras: seq<Extra>, denom: string)
    ensures GrantedAll(extras, denom) > 0 ==> denom == "uact" || denom == "uakt"
  {
    if |extras| > 0 {
      OnlyTwoDenominations(extras[1..], denom);
    }
  }

  lemma UnreadEntryIsReplaced(amount: Option<string>, denom: string, granted: u64)
    requires Read(amount) == 0 && granted > 0
    ensures AddSupply([Coin(denom, amount)], denom, granted) == Some([Coin(denom, Some(ToText(granted)))])
  {
    hide ToText, Read;
    var supply := [Coin(denom, amount)];
    assert supply[0 := Coin(denom, Some(ToText(granted)))] == [Coin(denom, Some(ToText(granted)))];
  }

  /**
   * A supply of 2^64 or more is read as zero: a grant replaces it by the grant alone, so the whole former
   * supply is gone.
   */
  lemma LargeSupplyIsLost(a: Accounts, supply: nat, e: Extra)
    requires supply >= 0x1_0000_0000_0000_0000 && e.uact > 0 && e.uakt == 0
    requires a == Accounts(Some([]), Some([Coin("uact", Some(ToText(supply)))]), Some([]))
    ensures Inject(a, e).Some? && Inject(a, e).value.supply == Some([Coin("uact", Some(ToText(e.uact)))])
    ensures Outside(a, "uact") == supply && Outside(Inject(a, e).value, "uact") == 0
  {
    WorthOfText(supply);
    WorthOfText(e.uact);
    UnreadEntryIsReplaced(Some(ToText(supply)), "uact", e.uact);
    TotalOfOne(Coin("uact", Some(ToText(supply))), "uact");
    TotalOfOne(Coin("uact", Some(ToText(e.uact))), "uact");
    hide ToText, Worth, Read, AddSupply, TotalOf;
    InjectGrants(a, e, "uact");
    assert AddSupply([Coin("uact", Some(ToText(e.uact)))], "uakt", 0) == Some([Coin("uact", Some(ToText(e.uact)))])
      by { AddSupplyNothing([Coin("uact", Some(ToText(e.uact)))], "uakt"); }
  }

  lemma AddSupplyNothing(supply: seq<Coin>, denom: string)
    ensures AddSupply(supply, denom, 0) == Some(supply)
  {
  }

  /** The accounts registered by a list: one for every entry that grants anything, in order. */
  function Registered(extras: seq<Extra>): seq<AuthAccount> {
    if |extras| == 0 then []
    else (if extras[0].uact == 0 && extras[0].uakt == 0 then [] else [BaseAccount(extras[0].address)])
         + Registered(extras[1..])
  }

  /** The balance entries added by a list, one for every entry that grants anything, in order. */
  function NewBalances(extras: seq<Extra>): seq<Balance> {
    if |extras| == 0 then []
    else (if extras[0].uact == 0 && extras[0].uakt == 0 then [] else [Balance(extras[0].address, NewCoins(extras[0]))])
         + NewBalances(extras[1..])
  }

  function AppendAll<T>(s: Option<seq<T>>, more: seq<T>): Option<seq<T>> {
    match s
    case None => None
    case Some(items) => Some(items + more)
  }

  lemma AppendTwice<T>(s: Option<seq<T>>, x: seq<T>, y: seq<T>)
    ensures AppendAll(AppendAll(s, x), y) == AppendAll(s, x + y)
    ensures AppendAll(s, []) == s
  {
    if s.Some? {
      ConcatAssoc(s.value, x, y);
      assert s.value + [] == s.value;
    }
  }

  /** Accounts and balances grow by one entry for every account that is granted anything, in order. */
  lemma {:induction false} AccountsAreRegistered(a: Accounts, extras: seq<Extra>)
    requires InjectAll(a, extras).Some?
    ensures InjectAll(a, extras).value.auth == AppendAll(a.auth, Registered(extras))
    ensures InjectAll(a, extras).value.balances == AppendAll(a.balances, NewBalances(extras))
    decreases |extras|
  {
    if |extras| == 0 {
      AppendTwice(a.auth, [], []);
      AppendTwice(a.balances, [], []);
    } else {
      var e, rest := extras[0], extras[1..];
      AccountsAreRegistered(Inject(a, e).value, rest);
      AppendTwice(a.auth, if e.uact == 0 && e.uakt == 0 then [] else [BaseAccount(e.address)], Registered(rest));
      AppendTwice(a.balances, if e.uact == 0 && e.uakt == 0 then [] else [Balance(e.address, NewCoins(e))],
                  NewBalances(rest));
    }
  }
}
