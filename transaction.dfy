/** `TransactionArgumentHelper.normalizeTransactionArgument` of
    `src/internal/transaction.ts`: the placeholders `@` (the package address)
    and `$sender` in address and object arguments are replaced in place. */
module Transaction {
  import opened Numerals

  /** The first element of a `TransacationArgument` pair. */
  datatype ArgTag = Address | Str | Object | U8 | U64 | U128 | U256

  /** The second element: a string, or an integer number or BigInt. */
  datatype ArgValue = Text(s: string) | Num(n: int)

  /** `TransactionTypeSerializeContext`. */
  datatype SerializeContext = SerializeContext(packageAddr: string, sender: string)

  /** An argument pair, whose value the normaliser overwrites. */
  class TransactionArgument {
    var tag: ArgTag
    var value: ArgValue

    constructor(tag: ArgTag, value: ArgValue)
      ensures this.tag == tag && this.value == value
    {
      this.tag := tag;
      this.value := value;
    }
  }

  /** `v[1].toString()`: a string is itself, an integer prints in decimal. */
  function ValueString(v: ArgValue): string
  {
    match v
    case Text(s) => s
    case Num(n) => IntToString(n)
  }

  /** The value an argument holds after normalisation. */
  function Normalized(tag: ArgTag, value: ArgValue, ctx: SerializeContext): ArgValue
  {
    if tag == Address || tag == Object then
      var valueStr := ValueString(value);
      if valueStr == "@" then Text(ctx.packageAddr)
      else if valueStr == "$sender" then Text(ctx.sender)
      else value
    else value
  }

  /** `normalizeTransactionArgument(v, ctx)`: rewrites `v`'s value in place
      and returns the same argument. */
  method NormalizeTransactionArgument(v: TransactionArgument, ctx: SerializeContext)
    returns (r: TransactionArgument)
    modifies v
    ensures r == v
    ensures v.tag == old(v.tag)
    ensures v.value == Normalized(old(v.tag), old(v.value), ctx)
  {
    if v.tag == Address || v.tag == Object {
      var valueStr := ValueString(v.value);
      if valueStr == "@" {
        v.value := Text(ctx.packageAddr);
      } else if valueStr == "$sender" {
        v.value := Text(ctx.sender);
      }
    }
    return v;
  }

  /** In an address or object argument `@` becomes the package address,
      `$sender` the sender, and any other value stays; arguments of the other
      tags are never rewritten, not even `@`. */
  lemma NormalizedPlaceholders(tag: ArgTag, value: ArgValue, ctx: SerializeContext)
    ensures (tag == Address || tag == Object) && value == Text("@") ==>
      Normalized(tag, value, ctx) == Text(ctx.packageAddr)
    ensures (tag == Address || tag == Object) && value == Text("$sender") ==>
      Normalized(tag, value, ctx) == Text(ctx.sender)
    ensures value != Text("@") && value != Text("$sender") ==> Normalized(tag, value, ctx) == value
    ensures tag != Address && tag != Object ==> Normalized(tag, value, ctx) == value
  {
    if value.Num? {
      NumberIsNoPlaceholder(value.n);
    }
  }

  /** A number never prints as a placeholder. */
  lemma NumberIsNoPlaceholder(n: int)
    ensures IntToString(n) != "@" && IntToString(n) != "$sender"
  {
    var s := IntToString(n);
    if n < 0 {
      assert s[0] == '-';
    } else {
      assert IsDigit(s[0]);
    }
  }

  /** When neither replacement is itself a placeholder, normalising twice is
      normalising once. */
  lemma NormalizedIdempotent(tag: ArgTag, value: ArgValue, ctx: SerializeContext)
    requires ctx.packageAddr != "@" && ctx.packageAddr != "$sender"
    requires ctx.sender != "@" && ctx.sender != "$sender"
    ensures Normalized(tag, Normalized(tag, value, ctx), ctx) == Normalized(tag, value, ctx)
  {
    NormalizedPlaceholders(tag, value, ctx);
    NormalizedPlaceholders(tag, Normalized(tag, value, ctx), ctx);
  }
}
