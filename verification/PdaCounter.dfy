/** The on-chain counter program: one 8-byte little-endian counter per derived address, created by
    Initialize, bumped by Increment, only logged by Read. */
module PdaCounter {
  import opened Bytes

  type Address = seq<byte>

  const U64: nat := 0x1_0000_0000_0000_0000
  const SPACE: nat := 8

  datatype ProgramError = InvalidInstructionData | InvalidSeeds | NotEnoughAccountKeys | SystemError

  datatype Outcome = Ok | Err(error: ProgramError) | Panic

  /** One instruction: the accounts it names, its data, and whether the system program would create a
      fresh account for it. */
  datatype Instruction = Instruction(accounts: seq<Address>, data: seq<byte>, systemAccepts: bool)

  /** The program as built: address derivation, undefined where it panics, and whether `counter += 1`
      panics on overflow or wraps. */
  datatype Program = Program(derive: seq<byte> -> Option<Address>, overflowChecks: bool)

  /** The accounts the program owns. */
  type World = map<Address, seq<byte>>

  /** The seed of an Initialize instruction: `data = [0, seed_len, seed...]`; bytes after it are ignored. */
  function Seed(data: seq<byte>): Option<seq<byte>> {
    if |data| < 2 then None
    else
      var seedLen: nat := data[1];
      if |data| < 2 + seedLen then None else Some(data[2..2 + seedLen])
  }

  function InitializeStep(program: Program, world: World, ix: Instruction): (Outcome, World) {
    if |ix.accounts| < 3 then (Err(NotEnoughAccountKeys), world)
    else
      match Seed(ix.data)
      case None => (Err(InvalidInstructionData), world)
      case Some(seed) =>
        match program.derive(seed)
        case None => (Panic, world)
        case Some(pda) =>
          if pda != ix.accounts[1] then (Err(InvalidSeeds), world)
          else if pda in world || !ix.systemAccepts then (Err(SystemError), world)
          else (Ok, world[pda := LittleEndian(0, SPACE)])
  }

  function IncrementStep(program: Program, world: World, ix: Instruction): (Outcome, World) {
    if |ix.accounts| < 1 then (Err(NotEnoughAccountKeys), world)
    else
      var pda := ix.accounts[0];
      if pda !in world || |world[pda]| < SPACE then (Panic, world)
      else
        var counter := FromLittleEndian(world[pda][..SPACE]);
        if counter + 1 >= U64 && program.overflowChecks then (Panic, world)
        else (Ok, world[pda := LittleEndian((counter + 1) % U64, SPACE) + world[pda][SPACE..]])
  }

  function ReadStep(world: World, ix: Instruction): (Outcome, World) {
    if |ix.accounts| < 1 then (Err(NotEnoughAccountKeys), world)
    else if ix.accounts[0] !in world || |world[ix.accounts[0]]| < SPACE then (Panic, world)
    else (Ok, world)
  }

  function Step(program: Program, world: World, ix: Instruction): (Outcome, World) {
    if ix.data == [] then (Err(InvalidInstructionData), world)
    else if ix.data[0] == 0 then InitializeStep(program, world, ix)
    else if ix.data[0] == 1 then IncrementStep(program, world, ix)
    else if ix.data[0] == 2 then ReadStep(world, ix)
    else (Err(InvalidInstructionData), world)
  }

  // ----- In place -----

  /** The ledger's account buffers, which the program overwrites in place. */
  class Bank {
    var accounts: map<Address, array<byte>>

    ghost predicate Valid()
      reads this
    {
      forall a, b :: a in accounts && b in accounts && a != b ==> accounts[a] != accounts[b]
    }

    ghost function View(): World
      reads this, accounts.Values
    {
      map a | a in accounts :: accounts[a][..]
    }

    constructor ()
      ensures Valid() && View() == map[] && fresh(accounts.Values)
    {
      accounts := map[];
      new;
      assert forall a :: a !in accounts;
      assert accounts.Values == {};
      assert View() == map[];
    }

    /** A fresh 8-byte account holding zero. */
    method CreateAccount(pda: Address)
      requires Valid() && pda !in accounts
      modifies this
      ensures Valid() && fresh(accounts.Values - old(accounts.Values))
      ensures View() == old(View())[pda := LittleEndian(0, SPACE)]
    {
      var data := new byte[SPACE];
      accounts := accounts[pda := data];
      CopyFromSlice(data, LittleEndian(0, SPACE));
      assert data[..] == LittleEndian(0, SPACE);
    }

    method Initialize(program: Program, ix: Instruction) returns (outcome: Outcome)
      requires Valid()
      modifies this, accounts.Values
      ensures Valid() && fresh(accounts.Values - old(accounts.Values))
      ensures (outcome, View()) == InitializeStep(program, old(View()), ix)
    {
      if |ix.accounts| < 3 {
        return Err(NotEnoughAccountKeys);
      }
      if |ix.data| < 2 {
        return Err(InvalidInstructionData);
      }
      var seedLen: nat := ix.data[1];
      if |ix.data| < 2 + seedLen {
        return Err(InvalidInstructionData);
      }
      var expected := program.derive(ix.data[2..2 + seedLen]);
      if expected.None? {
        return Panic;
      }
      var pda := expected.value;
      if pda != ix.accounts[1] {
        return Err(InvalidSeeds);
      }
      if pda in accounts || !ix.systemAccepts {
        return Err(SystemError);
      }
      CreateAccount(pda);
      outcome := Ok;
    }

    method Increment(program: Program, ix: Instruction) returns (outcome: Outcome)
      requires Valid()
      modifies accounts.Values
      ensures Valid() && accounts == old(accounts)
      ensures (outcome, View()) == IncrementStep(program, old(View()), ix)
    {
      if |ix.accounts| < 1 {
        return Err(NotEnoughAccountKeys);
      }
      var pda := ix.accounts[0];
      if pda !in accounts || accounts[pda].Length < SPACE {
        return Panic;
      }
      var data := accounts[pda];
      var counter := FromLittleEndian(data[..SPACE]);
      if counter + 1 >= U64 {
        if program.overflowChecks {
          return Panic;
        }
      }
      ghost var before := View();
      ghost var tail := data[SPACE..];
      CopyFromSlice(data, LittleEndian((counter + 1) % U64, SPACE));
      outcome := Ok;
      assert data[..] == LittleEndian((counter + 1) % U64, SPACE) + tail;
      assert View() == before[pda := data[..]];
    }

    method ReadCounter(ix: Instruction) returns (outcome: Outcome, counter: nat)
      requires Valid()
      ensures (outcome, View()) == ReadStep(View(), ix)
      ensures outcome.Ok? ==> counter == FromLittleEndian(View()[ix.accounts[0]][..SPACE])
    {
      counter := 0;
      if |ix.accounts| < 1 {
        return Err(NotEnoughAccountKeys), counter;
      }
      var pda := ix.accounts[0];
      if pda !in accounts || accounts[pda].Length < SPACE {
        return Panic, counter;
      }
      counter := FromLittleEndian(accounts[pda][..SPACE]);
      assert accounts[pda][..SPACE] == View()[pda][..SPACE];
      outcome := Ok;
    }

    method ProcessInstruction(program: Program, ix: Instruction) returns (outcome: Outcome)
      requires Valid()
      modifies this, accounts.Values
      ensures Valid() && fresh(accounts.Values - old(accounts.Values))
      ensures (outcome, View()) == Step(program, old(View()), ix)
    {
      if |ix.data| == 0 {
        return Err(InvalidInstructionData);
      }
      if ix.data[0] == 0 {
        outcome := Initialize(program, ix);
      } else if ix.data[0] == 1 {
        outcome := Increment(program, ix);
      } else if ix.data[0] == 2 {
        var counter;
        outcome, counter := ReadCounter(ix);
      } else {
        outcome := Err(InvalidInstructionData);
      }
    }

    /** Any run of instructions, each in its own transaction. */
    method ProcessAll(program: Program, ixs: seq<Instruction>)
      requires Valid() && View() == map[]
      modifies this, accounts.Values
      ensures Valid() && View() == After(program, ixs)
    {
      for n := 0 to |ixs|
        invariant Valid() && fresh(accounts.Values - old(accounts.Values))
        invariant View() == After(program, ixs[..n])
      {
        assert ixs[..n + 1][..n] == ixs[..n];
        var _ := ProcessInstruction(program, ixs[n]);
      }
      assert ixs[..|ixs|] == ixs;
    }
  }

  /** `data[..8].copy_from_slice(bytes)` */
  method CopyFromSlice(data: array<byte>, bytes: seq<byte>)
    requires |bytes| <= data.Length
    modifies data
    ensures data[..] == bytes + old(data[|bytes|..])
  {
    for i := 0 to |bytes|
      invariant data[..i] == bytes[..i]
      invariant data[i..] == old(data[i..])
    {
      ghost var rest := data[i + 1..];
      data[i] := bytes[i];
      assert data[i + 1..] == rest;
      assert data[..i + 1] == data[..i] + [bytes[i]];
    }
    assert data[..] == data[..|bytes|] + data[|bytes|..];
  }

  // ----- Every run -----

  function After(program: Program, ixs: seq<Instruction>): World {
    if ixs == [] then map[] else Step(program, After(program, ixs[..|ixs| - 1]), ixs[|ixs| - 1]).1
  }

  function OutcomeOf(program: Program, ixs: seq<Instruction>): Outcome
    requires ixs != []
  {
    Step(program, After(program, ixs[..|ixs| - 1]), ixs[|ixs| - 1]).0
  }

  /** Successful increments of `a` since it was initialized; nothing if it never was. */
  function Increments(program: Program, ixs: seq<Instruction>, a: Address): Option<nat> {
    if ixs == [] then None
    else
      var before, ix := Increments(program, ixs[..|ixs| - 1], a), ixs[|ixs| - 1];
      if !OutcomeOf(program, ixs).Ok? then before
      else if ix.data[0] == 0 && ix.accounts[1] == a then Some(0)
      else if ix.data[0] == 1 && ix.accounts[0] == a && before.Some? then Some(before.value + 1)
      else before
  }

  /** In every run an account exists exactly if it was initialized; then it has 8 bytes, and they hold
      the number of successful increments, modulo 2^64. */
  lemma {:induction false} CounterCounts(program: Program, ixs: seq<Instruction>, a: Address)
    ensures a in After(program, ixs) <==> Increments(program, ixs, a).Some?
    ensures a in After(program, ixs) ==>
              && |After(program, ixs)[a]| == SPACE
              && FromLittleEndian(After(program, ixs)[a]) == Increments(program, ixs, a).value % U64
              && (program.overflowChecks ==> Increments(program, ixs, a).value < U64)
  {
    if ixs != [] {
      var before, ix := ixs[..|ixs| - 1], ixs[|ixs| - 1];
      CounterCounts(program, before, a);
      var world := After(program, before);
      StepFrame(program, world, ix, a);
      if OutcomeOf(program, ixs).Ok? && ix.data[0] == 0 && ix.accounts[1] == a {
        ZeroCounter();
      } else if OutcomeOf(program, ixs).Ok? && ix.data[0] == 1 && ix.accounts[0] == a {
        NextCounter(world[a], Increments(program, before, a).value);
      }
    }
  }

  lemma ZeroCounter()
    ensures FromLittleEndian(LittleEndian(0, SPACE)) == 0
  {
    CapacityValues();
    DecodeEncode(0, SPACE);
  }

  /** The buffer after one more increment. */
  lemma NextCounter(bytes: seq<byte>, n: nat)
    requires |bytes| == SPACE && FromLittleEndian(bytes) == n % U64
    ensures bytes[..SPACE] == bytes && bytes[SPACE..] == []
    ensures FromLittleEndian(LittleEndian((n % U64 + 1) % U64, SPACE) + bytes[SPACE..]) == (n + 1) % U64
    ensures n < U64 && n % U64 + 1 < U64 ==> n + 1 < U64
  {
    CapacityValues();
    NextModulo(n);
    DecodeEncode((n % U64 + 1) % U64, SPACE);
    var encoded := LittleEndian((n % U64 + 1) % U64, SPACE);
    assert encoded + bytes[SPACE..] == encoded;
  }

  lemma NextModulo(n: nat)
    ensures (n % U64 + 1) % U64 == (n + 1) % U64
  {
  }

  /** The counter is exact if and only if fewer than 2^64 increments succeeded, which overflow checks
      guarantee. */
  lemma CounterIsExact(program: Program, ixs: seq<Instruction>, a: Address)
    requires Increments(program, ixs, a).Some?
    ensures a in After(program, ixs)
    ensures FromLittleEndian(After(program, ixs)[a]) == Increments(program, ixs, a).value <==>
            Increments(program, ixs, a).value < U64
    ensures program.overflowChecks ==> Increments(program, ixs, a).value < U64
  {
    CounterCounts(program, ixs, a);
    SmallModulo(Increments(program, ixs, a).value);
  }

  lemma SmallModulo(n: nat)
    ensures n < U64 ==> n % U64 == n
  {
  }

  // ----- One instruction, outcome by outcome -----

  /** The number in the first 8 bytes. */
  function CounterOf(account: seq<byte>): nat
    requires |account| >= 8
  {
    FromLittleEndian(account[..8])
  }

  /** Increment needs an account with 8 bytes; it adds one to the number in them, or starts over at zero
      after 2^64 - 1 unless overflow is checked, and leaves everything else. */
  lemma IncrementExactly(program: Program, world: World, ix: Instruction)
    requires ix.data != [] && ix.data[0] == 1
    ensures var (outcome, world') := Step(program, world, ix);
            if |ix.accounts| == 0 then outcome == Err(NotEnoughAccountKeys)
            else if ix.accounts[0] !in world || |world[ix.accounts[0]]| < 8 then outcome == Panic
            else
              var a, was := ix.accounts[0], world[ix.accounts[0]];
              if CounterOf(was) == 0xFFFF_FFFF_FFFF_FFFF && program.overflowChecks then outcome == Panic
              else
                && outcome == Ok && world'.Keys == world.Keys
                && (forall b :: b in world && b != a ==> world'[b] == world[b])
                && |world'[a]| == |was| && world'[a][8..] == was[8..]
                && CounterOf(world'[a]) == if CounterOf(was) == 0xFFFF_FFFF_FFFF_FFFF then 0 else CounterOf(was) + 1
  {
    if |ix.accounts| > 0 && ix.accounts[0] in world && |world[ix.accounts[0]]| >= 8 {
      Incremented(world[ix.accounts[0]]);
    }
  }

  lemma Incremented(was: seq<byte>)
    requires |was| >= 8
    ensures CounterOf(was) <= 0xFFFF_FFFF_FFFF_FFFF
    ensures var now := LittleEndian((CounterOf(was) + 1) % U64, SPACE) + was[SPACE..];
            && |now| == |was| && now[8..] == was[8..]
            && CounterOf(now) == if CounterOf(was) == 0xFFFF_FFFF_FFFF_FFFF then 0 else CounterOf(was) + 1
  {
    CapacityValues();
    EncodeDecode(was[..8]);
    var next := (CounterOf(was) + 1) % U64;
    DecodeEncode(next, SPACE);
    assert (LittleEndian(next, SPACE) + was[SPACE..])[..8] == LittleEndian(next, SPACE);
  }

  /** Initialize, by the first check that fails; a new account holds eight zero bytes. */
  lemma InitializeOutcome(program: Program, world: World, ix: Instruction)
    requires ix.data != [] && ix.data[0] == 0
    ensures var (outcome, world') := Step(program, world, ix);
            if |ix.accounts| < 3 then outcome == Err(NotEnoughAccountKeys)
            else if |ix.data| < 2 || |ix.data| < 2 + ix.data[1] as int then outcome == Err(InvalidInstructionData)
            else
              match program.derive(ix.data[2..2 + ix.data[1] as int])
              case None => outcome == Panic
              case Some(pda) =>
                if pda != ix.accounts[1] then outcome == Err(InvalidSeeds)
                else if pda in world || !ix.systemAccepts then outcome == Err(SystemError)
                else outcome == Ok && world' == world[pda := [0, 0, 0, 0, 0, 0, 0, 0]]
  {
    ZeroBytes();
  }

  lemma ZeroBytes()
    ensures LittleEndian(0, SPACE) == [0, 0, 0, 0, 0, 0, 0, 0]
  {
    var zeros := LittleEndian(0, SPACE);
    ZeroCounter();
    EightBytes(zeros);
  }

  /** Read needs an account with 8 bytes; no other first byte is an instruction. */
  lemma OtherOutcomes(program: Program, world: World, ix: Instruction)
    requires ix.data == [] || ix.data[0] >= 2
    ensures var (outcome, world') := Step(program, world, ix);
            && world' == world
            && if ix.data == [] || ix.data[0] > 2 then outcome == Err(InvalidInstructionData)
               else if |ix.accounts| == 0 then outcome == Err(NotEnoughAccountKeys)
               else if ix.accounts[0] !in world || |world[ix.accounts[0]]| < 8 then outcome == Panic
               else outcome == Ok
  {
  }

  /** A failed instruction changes nothing; a successful one changes at most the account it names first
      (Increment) or second (Initialize), and Read changes nothing at all. */
  lemma StepFrame(program: Program, world: World, ix: Instruction, a: Address)
    ensures var (outcome, world') := Step(program, world, ix);
            && (!outcome.Ok? ==> world' == world)
            && (ix.data != [] && ix.data[0] == 2 ==> world' == world)
            && (a in world ==> a in world')
            && (outcome.Ok? && a in world && !(ix.data[0] == 1 && ix.accounts[0] == a) ==> world'[a] == world[a])
            && (outcome.Ok? && a !in world && !(ix.data[0] == 0 && ix.accounts[1] == a) ==> a !in world')
  {
  }

  /** Initialize recovers exactly the length-prefixed seed, whatever follows it, and succeeds exactly when
      that seed derives the named account, the account is new and the system program creates it. */
  lemma InitializeExactly(program: Program, world: World, accounts: seq<Address>, seed: seq<byte>, rest: seq<byte>,
      accepts: bool)
    requires |seed| <= 255
    ensures var data: seq<byte> := [0, |seed|] + seed + rest;
            && Seed(data) == Some(seed)
            && (Step(program, world, Instruction(accounts, data, accepts)).0.Ok? <==>
                |accounts| >= 3 && program.derive(seed) == Some(accounts[1]) && accounts[1] !in world && accepts)
  {
    var data: seq<byte> := [0, |seed|] + seed + rest;
    assert data[2..2 + |seed|] == seed;
  }
}
