/** The closed vocabularies of the explorer API: action kinds, transaction
    states and token standards, each parsed by exact string match, and the
    output category derived from the action. Anything outside a vocabulary
    is an error that carries the offending input, so that a change in the
    API surfaces as a failure instead of a silently mis-filed record. */
module Vocabulary {
  import opened Wrappers

  datatype Action = Mint | Transfer

  /** Output categories of the accounting tool's import schema. */
  datatype Category = Buy | MintCategory

  /** Transaction status; only successful transactions are recognised. */
  datatype State = Success

  /** Token standard; only BRC20 is recognised. */
  datatype TokenType = BRC20

  /** `Action::from_str`. */
  function ParseAction(input: string): (r: Result<Action, Error>)
    ensures r == Ok(Mint) <==> input == "mint"
    ensures r == Ok(Transfer) <==> input == "transfer"
    ensures r.Err? <==> input != "mint" && input != "transfer"
    ensures r.Err? ==> r.error == UnknownAction(input) && Message(r.error) == "Unknown action: " + input
  {
    if input == "mint" then Ok(Mint)
    else if input == "transfer" then Ok(Transfer)
    else Err(UnknownAction(input))
  }

  /** `State::from_str`. */
  function ParseState(input: string): (r: Result<State, Error>)
    ensures r.Ok? <==> input == "success"
    ensures r.Err? ==> r.error == UnknownState(input) && Message(r.error) == "Unknown state: " + input
  {
    if input == "success" then Ok(Success) else Err(UnknownState(input))
  }

  /** `TokenType::from_str`. */
  function ParseTokenType(input: string): (r: Result<TokenType, Error>)
    ensures r.Ok? <==> input == "BRC20"
    ensures r.Err? ==> r.error == UnknownTokenType(input) && Message(r.error) == "Unknown token type: " + input
  {
    if input == "BRC20" then Ok(BRC20) else Err(UnknownTokenType(input))
  }

  /** The derived `Display` of `Action`: the variant's name. */
  function ActionName(a: Action): string
  {
    match a
    case Mint => "Mint"
    case Transfer => "Transfer"
  }

  /** The derived `Display` of `TokenType`: the variant's name. */
  function TokenTypeName(t: TokenType): string
  {
    match t
    case BRC20 => "BRC20"
  }

  /** The hand-written `Display` of `Category`. */
  function CategoryName(c: Category): string
  {
    match c
    case Buy => "buy"
    case MintCategory => "mint"
  }

  /** The category `to_csv_row` files an action under: a mint is a mint and
      every transfer is taken to be a purchase. */
  function CategoryOf(a: Action): (c: Category)
    ensures c == MintCategory <==> a == Mint
    ensures c == Buy <==> a == Transfer
  {
    match a
    case Mint => MintCategory
    case Transfer => Buy
  }

  /** Each action has exactly one spelling the API may use for it. */
  lemma ActionVocabulary(a: Action)
    ensures ParseAction(if a == Mint then "mint" else "transfer") == Ok(a)
    ensures forall s :: ParseAction(s) == Ok(a) ==> s == (if a == Mint then "mint" else "transfer")
  {
  }

  /** The parsers are case-sensitive: an action's display name, which
      differs from its API spelling only in case, is rejected, and so are
      padded spellings. */
  lemma ParsersRejectVariants()
    ensures forall a: Action :: ParseAction(ActionName(a)) == Err(UnknownAction(ActionName(a)))
    ensures ParseAction("Mint").Err? && ParseAction(" mint").Err? && ParseAction("mint ").Err?
    ensures ParseState("Success").Err? && ParseState("fail").Err?
    ensures ParseTokenType("brc20").Err? && ParseTokenType("BRC-20").Err?
  {
    forall a: Action ensures ParseAction(ActionName(a)) == Err(UnknownAction(ActionName(a))) {
      match a
      case Mint => assert ActionName(a)[0] == 'M';
      case Transfer => assert ActionName(a)[0] == 'T';
    }
    assert " mint"[0] == ' ';
  }
}
