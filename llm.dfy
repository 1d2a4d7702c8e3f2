/**
 * The language-model client, reduced to what the core relies on: each call
 * hands over a query and gets back an already decoded structured record, or
 * an error (a transport failure or text that is not JSON). The answer may
 * depend on how many calls came before, so repeated queries need not get
 * repeated answers.
 */
module Llm {
  import opened Wrappers

  class Oracle<Q, R> {
    /** The answer to the call with the given index. */
    const answer: (nat, Q) -> Result<R>
    /** Every query made so far, in order. */
    var log: seq<Q>

    constructor (answer: (nat, Q) -> Result<R>)
      ensures this.answer == answer && log == []
    {
      this.answer := answer;
      log := [];
    }

    /** One call of `generate`. */
    method Generate(query: Q) returns (response: Result<R>)
      modifies this
      ensures log == old(log) + [query]
      ensures response == answer(|old(log)|, query)
    {
      response := answer(|log|, query);
      log := log + [query];
    }
  }

  /** The attributes `LLMClients.__init__` sets on the shared registry `llm_clients`. */
  const RegistryAttributes: set<string> := {"base_client", "tree", "content"}

  /** The registry with the validation client that the tree validator asks for. */
  const RegistryWithValidator: set<string> := RegistryAttributes + {"tree_validator"}

  /** `getattr(llm_clients, name)` on a registry whose attributes are the keys of `clients`; a missing one is named at the end of the error. */
  function Attribute<C>(clients: map<string, C>, name: string): (r: Result<C>)
    ensures r.Ok? <==> name in clients
    ensures r.Ok? ==> r.value == clients[name]
    ensures r.Err? ==>
      && r.error.AttributeError? && |r.error.message| > |name|
      && r.error.message[|r.error.message| - |name| - 1..] == name + "'"
  {
    if name in clients then Ok(clients[name])
    else
      var msg := "'LLMClients' object has no attribute '" + name + "'";
      Err(AttributeError(msg))
  }

  /** The registry as written has no "tree_validator", so asking it for one fails. */
  lemma ValidatorClientMissing<C>(clients: map<string, C>)
    requires clients.Keys == RegistryAttributes
    ensures Attribute(clients, "tree_validator").Err?
    ensures Attribute(clients, "tree_validator").error.AttributeError?
  {
  }

  /** With the validation client registered, every client the core asks for is served, the validator's included. */
  lemma RegistryServesValidator<C>(clients: map<string, C>)
    requires clients.Keys == RegistryWithValidator
    ensures forall name :: name in RegistryWithValidator ==> Attribute(clients, name) == Ok(clients[name])
    ensures Attribute(clients, "tree_validator") == Ok(clients["tree_validator"])
  {
  }
}
