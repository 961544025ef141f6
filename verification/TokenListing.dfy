/** What a node answers when asked for an owner's token accounts. */
module TokenListing {

  /** An account's data; `T` is a token account as far as the caller reads it. */
  datatype AccountData<T> = NotJson | Json(program: string, parsed: Parsed<T>)

  datatype Parsed<T> = Account(account: T) | OtherType | Malformed(message: string)

  /** One entry of the answer, under its address. */
  datatype RpcAccount<A, T> = RpcAccount(pubkey: A, data: AccountData<T>)

  predicate IsTokenAccount<A, T>(k: RpcAccount<A, T>) {
    k.data.Json? && k.data.program == "spl-token" && k.data.parsed.Account?
  }

  function AccountOf<A, T>(k: RpcAccount<A, T>): T
    requires IsTokenAccount(k)
  {
    k.data.parsed.account
  }

  lemma ProgramName(program: string)
    ensures program == "spl-token" <==>
            |program| == 9 && program[..3] == "spl" && program[3] == '-' && program[4..] == "token"
  {
    if |program| == 9 && program[..3] == "spl" && program[3] == '-' && program[4..] == "token" {
      assert program == program[..3] + [program[3]] + program[4..];
    }
  }

  /** Token accounts are the parsed accounts of the program `spl-token`. */
  lemma TokenAccountIff<A, T>(a: A, program: string, parsed: Parsed<T>)
    ensures IsTokenAccount(RpcAccount(a, Json(program, parsed))) <==>
            |program| == 9 && program[..3] == "spl" && program[3] == '-' && program[4..] == "token" && parsed.Account?
    ensures !IsTokenAccount<A, T>(RpcAccount(a, NotJson))
  {
    ProgramName(program);
  }
}
