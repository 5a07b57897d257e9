/** The address caches of common/fast_fn.rs and the seeded accounts of common/seed.rs. Hashing
    and address derivation are parameters. */
module TokenAccounts {
  import opened Wrappers
  import opened Bits
  import opened Codecs

  type Pubkey = nat

  datatype PdaKey =
    | PumpFunUserVolume(user: Pubkey)
    | PumpFunBondingCurve(mint: Pubkey)
    | PumpFunBondingCurveV2(mint: Pubkey)
    | PumpFunCreatorVault(creator: Pubkey)
    | BonkPool(base: Pubkey, quote: Pubkey)
    | BonkVault(pool: Pubkey, mint: Pubkey)
    | PumpSwapUserVolume(user: Pubkey)
    | PumpSwapPoolV2(mint: Pubkey)

  /** The outside world: the FNV hash of a mint, the two ways to derive an address (the seeded
      one can fail), and the well-known accounts. */
  datatype Env = Env(
    hash: Pubkey -> nat,
    createWithSeed: (Pubkey, seq<byte>, Pubkey) -> Option<Pubkey>,
    findProgramAddress: (Pubkey, Pubkey, Pubkey) -> Pubkey,
    wsol: Pubkey, sol: Pubkey, tokenProgram: Pubkey, tokenProgram2022: Pubkey)

  const UNINITIALIZED_RENT: nat := U64 - 1
  const DEFAULT_TOKEN_ACCOUNT_RENT: nat := 2_039_280
  const TOKEN_ACCOUNT_SIZE: nat := 165

  datatype Instruction =
    | CreateAccountWithSeed(from: Pubkey, to: Pubkey, base: Pubkey, seed: seq<byte>,
                            lamports: nat, space: nat, owner: Pubkey)
    | InitializeAccount3(program: Pubkey, account: Pubkey, mint: Pubkey, holder: Pubkey)
    | CreateAssociated(payer: Pubkey, account: Pubkey, holder: Pubkey, mint: Pubkey,
                       program: Pubkey)

  /** Whether the seeded address is used: never for wSOL or SOL, only for the token programs. */
  predicate Seeded(env: Env, mint: Pubkey, program: Pubkey, useSeed: bool) {
    && useSeed && mint != env.wsol && mint != env.sol
    && (program == env.tokenProgram || program == env.tokenProgram2022)
  }

  /** The 32 bits of the hash that make the seed: `hash & 0xFFFF_FFFF`. */
  function SeedValue(env: Env, mint: Pubkey): (v: nat)
    ensures v < 0x1_0000_0000
  {
    env.hash(mint) % 0x1_0000_0000
  }

  lemma SeedMask(h: nat)
    ensures And(h, 0xFFFF_FFFF) == h % 0x1_0000_0000
  {
    Pow64();
    AndLowMask(h, 32);
  }

  function SeedAddress(env: Env, base: Pubkey, mint: Pubkey, program: Pubkey): Option<Pubkey> {
    env.createWithSeed(base, Hex(SeedValue(env, mint), 8), program)
  }

  function AssociatedAddress(env: Env, owner: Pubkey, mint: Pubkey, program: Pubkey): Pubkey {
    env.findProgramAddress(owner, program, mint)
  }

  /** The address a wallet's token account has; None where the program panics. */
  function TokenAddress(env: Env, wallet: Pubkey, mint: Pubkey, program: Pubkey, useSeed: bool)
    : Option<Pubkey>
  {
    if Seeded(env, mint, program, useSeed) then SeedAddress(env, wallet, mint, program)
    else Some(AssociatedAddress(env, wallet, mint, program))
  }

  datatype AtaKey = AtaKey(wallet: Pubkey, mint: Pubkey, program: Pubkey, useSeed: bool)

  datatype CreateKey = CreateKey(payer: Pubkey, owner: Pubkey, mint: Pubkey, program: Pubkey,
                                 useSeed: bool)

  /** The account whose owner and mint a list of instructions sets up, when they are the two
      seeded instructions for one account or the single associated one. */
  function Initialised(instructions: seq<Instruction>): Option<Pubkey> {
    if |instructions| == 2 && instructions[0].CreateAccountWithSeed?
       && instructions[1].InitializeAccount3? && instructions[0].to == instructions[1].account
    then Some(instructions[1].account)
    else if |instructions| == 1 && instructions[0].CreateAssociated?
    then Some(instructions[0].account)
    else None
  }

  /** The runtime accepts a seeded creation only for the address derived from its own base,
      seed and owning program. */
  predicate Derivable(env: Env, i: Instruction) {
    i.CreateAccountWithSeed? ==> env.createWithSeed(i.base, i.seed, i.owner) == Some(i.to)
  }

  /** The two instructions of a seeded account, whatever its rent. */
  ghost predicate CreatesSeeded(env: Env, key: CreateKey, instructions: seq<Instruction>,
                                address: Pubkey)
  {
    && |instructions| == 2 && instructions[0].CreateAccountWithSeed?
    && instructions[0] == CreateAccountWithSeed(key.payer, address, key.payer,
                                                Hex(SeedValue(env, key.mint), 8),
                                                instructions[0].lamports, 165, key.program)
    && instructions[1] == InitializeAccount3(key.program, address, key.mint, key.owner)
  }

  /** The instructions for a key, field by field. */
  ghost predicate Creates(env: Env, key: CreateKey, instructions: seq<Instruction>) {
    if Seeded(env, key.mint, key.program, key.useSeed) then
      var address := SeedAddress(env, key.payer, key.mint, key.program);
      address.Some? && CreatesSeeded(env, key, instructions, address.value)
    else
      instructions == [CreateAssociated(
        key.payer, AssociatedAddress(env, key.owner, key.mint, key.program), key.owner, key.mint,
        key.program)]
  }

  /** They set up the address of the payer or the owner, and the runtime accepts them. */
  lemma CreatesAddress(env: Env, key: CreateKey, instructions: seq<Instruction>)
    requires Creates(env, key, instructions)
    ensures Initialised(instructions)
            == TokenAddress(env, if Seeded(env, key.mint, key.program, key.useSeed) then key.payer
                                 else key.owner, key.mint, key.program, key.useSeed)
    ensures forall i :: 0 <= i < |instructions| ==> Derivable(env, instructions[i])
  {}

  /** Which mints, programs and flags are seeded, and what the two kinds of address are. */
  lemma AddressCases(env: Env, wallet: Pubkey, mint: Pubkey, program: Pubkey, useSeed: bool)
    ensures
      TokenAddress(env, wallet, mint, program, useSeed)
      == if useSeed && mint != env.wsol && mint != env.sol
            && (program == env.tokenProgram || program == env.tokenProgram2022)
         then env.createWithSeed(wallet, Hex(env.hash(mint) % 0x1_0000_0000, 8), program)
         else Some(env.findProgramAddress(wallet, program, mint))
  {}

  class Caches {
    const env: Env
    var ata: map<AtaKey, Pubkey>
    var instructions: map<CreateKey, seq<Instruction>>
    var pda: map<PdaKey, Pubkey>
    var tokenRent: nat
    var token2022Rent: nat

    /** Every cached account address and instruction list is the one its key determines. */
    ghost predicate Valid()
      reads this
    {
      && (forall k :: k in ata ==>
            Some(ata[k]) == TokenAddress(env, k.wallet, k.mint, k.program, k.useSeed))
      && (forall k :: k in instructions ==> Creates(env, k, instructions[k]))
    }

    predicate RentReady(program: Pubkey)
      reads this`tokenRent, this`token2022Rent
    {
      (if program == env.tokenProgram2022 then token2022Rent else tokenRent) != UNINITIALIZED_RENT
    }

    constructor (env: Env)
      ensures Valid() && this.env == env && ata == map[] && instructions == map[] && pda == map[]
      ensures forall program :: !RentReady(program)
    {
      this.env := env;
      ata, instructions, pda := map[], map[], map[];
      tokenRent, token2022Rent := UNINITIALIZED_RENT, UNINITIALIZED_RENT;
    }

    /** The two fetched rents, None when the fetch fails: a failing second fetch leaves the
        first rent stored. */
    method UpdateRents(rent: Option<nat>, rent2022: Option<nat>) returns (ok: bool)
      requires Valid()
      modifies this`tokenRent, this`token2022Rent
      ensures Valid() && ok == (rent.Some? && rent2022.Some?)
      ensures tokenRent == if rent.Some? then rent.value else old(tokenRent)
      ensures token2022Rent == if ok then rent2022.value else old(token2022Rent)
    {
      if rent.None? {
        return false;
      }
      tokenRent := rent.value;
      if rent2022.None? {
        return false;
      }
      token2022Rent := rent2022.value;
      return true;
    }

    method SetDefaultRents()
      requires Valid()
      modifies this`tokenRent, this`token2022Rent
      ensures Valid() && forall program :: RentReady(program)
      ensures tokenRent == token2022Rent == 2_039_280
    {
      tokenRent := DEFAULT_TOKEN_ACCOUNT_RENT;
      token2022Rent := DEFAULT_TOKEN_ACCOUNT_RENT;
    }

    /** The getter's seeded slow path. */
    method GetSeedAddress(wallet: Pubkey, mint: Pubkey, program: Pubkey)
      returns (r: Option<Pubkey>)
      ensures r == SeedAddress(env, wallet, mint, program)
    {
      var v := And(env.hash(mint), 0xFFFF_FFFF);
      SeedMask(env.hash(mint));
      var seed := EncodeSeed(v);
      r := env.createWithSeed(wallet, seed, program);
    }

    /** Whatever was cached before, the address is the one the arguments determine. */
    method GetAddress(wallet: Pubkey, mint: Pubkey, program: Pubkey, useSeed: bool)
      returns (r: Option<Pubkey>)
      requires Valid()
      modifies this`ata
      ensures Valid()
      ensures r == TokenAddress(env, wallet, mint, program, useSeed)
    {
      var key := AtaKey(wallet, mint, program, useSeed);
      if key in ata {
        return Some(ata[key]);
      }
      if Seeded(env, mint, program, useSeed) {
        r := GetSeedAddress(wallet, mint, program);
        if r.None? {
          return;
        }
      } else {
        r := Some(env.findProgramAddress(wallet, program, mint));
      }
      ata := ata[key := r.value];
    }

    /** The pair of seeded instructions; None when the rent is not known yet or no address can
        be derived. The third argument of the creation is the base the address comes from. */
    method CreateUseSeed(payer: Pubkey, owner: Pubkey, mint: Pubkey, program: Pubkey)
      returns (r: Option<seq<Instruction>>)
      ensures r.Some? <==>
        && (if program == env.tokenProgram2022 then token2022Rent else tokenRent)
           != UNINITIALIZED_RENT
        && SeedAddress(env, payer, mint, program).Some?
      ensures r.Some? ==>
        && (forall i :: 0 <= i < |r.value| ==> Derivable(env, r.value[i]))
        && Initialised(r.value) == SeedAddress(env, payer, mint, program)
        && var address := Initialised(r.value).value;
           r.value == [CreateAccountWithSeed(
                         payer, address, payer, Hex(SeedValue(env, mint), 8),
                         if program == env.tokenProgram2022 then token2022Rent else tokenRent,
                         165, program),
                       InitializeAccount3(program, address, mint, owner)]
    {
      var rent := if program == env.tokenProgram2022 then token2022Rent else tokenRent;
      if rent == UNINITIALIZED_RENT {
        return None;
      }
      var v := And(env.hash(mint), 0xFFFF_FFFF);
      SeedMask(env.hash(mint));
      var seed := EncodeSeed(v);
      var address := env.createWithSeed(payer, seed, program);
      if address.None? {
        return None;
      }
      r := Some([CreateAccountWithSeed(payer, address.value, payer, seed, rent,
                                       TOKEN_ACCOUNT_SIZE, program),
                 InitializeAccount3(program, address.value, mint, owner)]);
    }

    /** Whatever was cached before, the instructions set up the address the key determines. */
    method CreateIdempotent(payer: Pubkey, owner: Pubkey, mint: Pubkey, program: Pubkey,
                            useSeed: bool)
      returns (r: Option<seq<Instruction>>)
      requires Valid()
      modifies this`ata, this`instructions
      ensures Valid()
      ensures r.Some? ==>
        && Creates(env, CreateKey(payer, owner, mint, program, useSeed), r.value)
        && (|r.value| == 2 <==>
            useSeed && mint != env.wsol && mint != env.sol
            && (program == env.tokenProgram || program == env.tokenProgram2022))
      ensures RentReady(program) ==>
        (r.Some? <==> TokenAddress(env, if Seeded(env, mint, program, useSeed) then payer
                                        else owner, mint, program, useSeed).Some?)
    {
      var key := CreateKey(payer, owner, mint, program, useSeed);
      if key in instructions {
        return Some(instructions[key]);
      }
      var made: seq<Instruction>;
      if Seeded(env, mint, program, useSeed) {
        var pair := CreateUseSeed(payer, owner, mint, program);
        if pair.None? {
          return None;
        }
        made := pair.value;
      } else {
        var address := GetAddress(owner, mint, program, false);
        made := [CreateAssociated(payer, address.value, owner, mint, program)];
      }
      instructions := instructions[key := made];
      r := Some(made);
    }

    /** `compute` is whatever the caller passes, and is only called on a miss. */
    method GetCachedPda(key: PdaKey, compute: () -> Option<Pubkey>) returns (r: Option<Pubkey>)
      modifies this`pda
      ensures r == PdaAnswer(old(pda), key, compute())
      ensures pda == PdaAfter(old(pda), key, compute())
    {
      if key in pda {
        return Some(pda[key]);
      }
      r := compute();
      if r.Some? {
        pda := pda[key := r.value];
      }
    }
  }

  /** What a lookup answers when its own computation would give `computed`. */
  function PdaAnswer(pda: map<PdaKey, Pubkey>, key: PdaKey, computed: Option<Pubkey>)
    : Option<Pubkey>
  {
    if key in pda then Some(pda[key]) else computed
  }

  function PdaAfter(pda: map<PdaKey, Pubkey>, key: PdaKey, computed: Option<Pubkey>)
    : map<PdaKey, Pubkey>
  {
    if key in pda || computed.None? then pda else pda[key := computed.value]
  }

  /** A lookup and what its caller's closure would compute. */
  datatype Lookup = Lookup(key: PdaKey, computed: Option<Pubkey>)

  function PdaAfterAll(lookups: seq<Lookup>): map<PdaKey, Pubkey> {
    if lookups == [] then map[]
    else
      var last := lookups[|lookups| - 1];
      PdaAfter(PdaAfterAll(lookups[..|lookups| - 1]), last.key, last.computed)
  }

  /** Lookup `i` is the first for its key whose computation succeeds. */
  predicate FirstSuccess(lookups: seq<Lookup>, key: PdaKey, i: nat) {
    && i < |lookups| && lookups[i].key == key && lookups[i].computed.Some?
    && forall j :: 0 <= j < i && lookups[j].key == key ==> lookups[j].computed.None?
  }

  /** After any lookups with any closures the cache holds, for each key, the first success. */
  lemma {:induction false} PdaIsFirstSuccess(lookups: seq<Lookup>, key: PdaKey)
    ensures key in PdaAfterAll(lookups) <==>
            exists i :: 0 <= i < |lookups| && lookups[i].key == key && lookups[i].computed.Some?
    ensures forall i: nat :: FirstSuccess(lookups, key, i) ==>
              PdaAnswer(PdaAfterAll(lookups), key, None) == lookups[i].computed
  {
    if lookups != [] {
      var n := |lookups| - 1;
      var before := lookups[..n];
      PdaIsFirstSuccess(before, key);
      forall i: nat | FirstSuccess(lookups, key, i)
        ensures PdaAnswer(PdaAfterAll(lookups), key, None) == lookups[i].computed
      {
        if i < n { assert FirstSuccess(before, key, i); }
      }
      if key in PdaAfterAll(before) {
        var i :| 0 <= i < n && before[i].key == key && before[i].computed.Some?;
        assert lookups[i] == before[i];
      } else {
        forall i | 0 <= i < n && lookups[i].key == key ensures lookups[i].computed.None? {
          assert before[i] == lookups[i];
        }
      }
    }
  }

  /** When every closure computes the derivation its key stands for, every answer is it. */
  lemma {:induction false} AgreeingLookups(lookups: seq<Lookup>, derive: PdaKey -> Option<Pubkey>,
                                           key: PdaKey)
    requires forall i :: 0 <= i < |lookups| ==> lookups[i].computed == derive(lookups[i].key)
    ensures PdaAnswer(PdaAfterAll(lookups), key, derive(key)) == derive(key)
  {
    if lookups != [] {
      AgreeingLookups(lookups[..|lookups| - 1], derive, key);
    }
  }

  /** The created account is the one the getter names for the owner. */
  ghost predicate OwnerFinds(env: Env, key: CreateKey) {
    forall made :: Creates(env, key, made) ==>
      Initialised(made) == TokenAddress(env, key.owner, key.mint, key.program, key.useSeed)
  }

  /** The instructions of the program, for a derivation that has an address. */
  lemma SeededExample(env: Env, key: CreateKey, address: Pubkey) returns (made: seq<Instruction>)
    requires Seeded(env, key.mint, key.program, key.useSeed)
    requires SeedAddress(env, key.payer, key.mint, key.program) == Some(address)
    ensures Creates(env, key, made) && Initialised(made) == Some(address)
  {
    made := [CreateAccountWithSeed(key.payer, address, key.payer,
                                   Hex(SeedValue(env, key.mint), 8), DEFAULT_TOKEN_ACCOUNT_RENT,
                                   TOKEN_ACCOUNT_SIZE, key.program),
             InitializeAccount3(key.program, address, key.mint, key.owner)];
  }

  /** A seeded account follows the payer: however addresses are derived, the owner finds every
      created account exactly when the account is not seeded or payer and owner are the same. */
  lemma OwnerFindsIff(env: Env, key: CreateKey)
    ensures (forall d :: OwnerFinds(env.(createWithSeed := d), key)) <==>
            !Seeded(env, key.mint, key.program, key.useSeed) || key.payer == key.owner
  {
    if Seeded(env, key.mint, key.program, key.useSeed) && key.payer != key.owner {
      var d := (base: Pubkey, seed: seq<byte>, program: Pubkey) => Some(base);
      var made := SeededExample(env.(createWithSeed := d), key, key.payer);
      assert !OwnerFinds(env.(createWithSeed := d), key);
    }
  }

  datatype Call =
    | Create(create: CreateKey)
    | Get(ata: AtaKey)
    | Pda(pda: PdaKey, compute: () -> Option<Pubkey>)
    | Rents(rent: Option<nat>, rent2022: Option<nat>)

  /** Any history of calls against the caches, then a creation and a lookup for one wallet: once
      the rent is known the creation gives an account exactly when the lookup does, and the two
      are always the same. */
  method CreateThenGet(caches: Caches, history: seq<Call>, wallet: Pubkey, mint: Pubkey,
                       program: Pubkey, useSeed: bool)
    returns (created: Option<Pubkey>, gotten: Option<Pubkey>)
    requires caches.Valid()
    modifies caches
    ensures caches.Valid()
    ensures gotten == TokenAddress(caches.env, wallet, mint, program, useSeed)
    ensures created.Some? || caches.RentReady(program) ==> created == gotten
  {
    for i := 0 to |history|
      invariant caches.Valid()
    {
      match history[i]
      case Create(c) =>
        var _ := caches.CreateIdempotent(c.payer, c.owner, c.mint, c.program, c.useSeed);
      case Get(a) => var _ := caches.GetAddress(a.wallet, a.mint, a.program, a.useSeed);
      case Pda(p, compute) => var _ := caches.GetCachedPda(p, compute);
      case Rents(one, two) => var _ := caches.UpdateRents(one, two);
    }
    var made := caches.CreateIdempotent(wallet, wallet, mint, program, useSeed);
    gotten := caches.GetAddress(wallet, mint, program, useSeed);
    created := if made.Some? then Initialised(made.value) else None;
    if made.Some? {
      CreatesAddress(caches.env, CreateKey(wallet, wallet, mint, program, useSeed), made.value);
    }
  }
}
