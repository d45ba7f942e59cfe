/** The name completion of src/parser/autocomplete.js: the catalog's keys that
    start with the typed name, in catalog order, leaving out the unnamed entry. */
module Autocomplete {
  import Config

  datatype Completion = Completion(name: string, options: seq<string>)

  /** `a` is `b` with some elements left out, order kept. */
  predicate Subsequence(a: seq<string>, b: seq<string>)
    decreases |b|
  {
    if |a| == 0 then true
    else if |b| == 0 then false
    else (a[0] == b[0] && Subsequence(a[1..], b[1..])) || Subsequence(a, b[1..])
  }

  /** `keys.filter(f => f.startsWith(name) && f !== "")`. */
  function Matching(keys: seq<string>, name: string): (r: seq<string>)
    ensures forall o | o in r :: o in keys && o != "" && name <= o
    ensures forall k | k in keys && k != "" && name <= k :: k in r
    ensures Subsequence(r, keys)
  {
    if |keys| == 0 then []
    else
      var rest := Matching(keys[1..], name);
      if name <= keys[0] && keys[0] != "" then [keys[0]] + rest else rest
  }

  /** `autocomplete(name)`. */
  function Complete(name: string): (r: Completion)
    ensures r.name == name
    ensures forall o | o in r.options :: o in Config.Keys && o != "" && name <= o
    ensures forall k | k in Config.Keys && k != "" && name <= k :: k in r.options
    ensures Subsequence(r.options, Config.Keys)
  {
    Completion(name, Matching(Config.Keys, name))
  }

  /** Every option names a catalog entry other than the unnamed one. */
  lemma OptionsAreEntries(name: string)
    ensures forall o | o in Complete(name).options ::
      Config.Lookup(o).Some? && Config.Lookup(o).value != Config.Identity
  {
  }

  /** Typing more characters can only narrow the options. */
  lemma {:induction false} LongerNameFewerOptions(keys: seq<string>, name: string, more: string)
    ensures Subsequence(Matching(keys, name + more), Matching(keys, name))
    decreases |keys|
  {
    if |keys| > 0 {
      LongerNameFewerOptions(keys[1..], name, more);
      var a, b := Matching(keys[1..], name + more), Matching(keys[1..], name);
      if name + more <= keys[0] {
        assert name <= keys[0];
      }
      var k := keys[0];
      if name + more <= k && k != "" {
        assert ([k] + a)[1..] == a && ([k] + b)[1..] == b;
      } else if name <= k && k != "" {
        SubsequenceDrop(a, b, k);
      }
    }
  }

  lemma {:induction false} SubsequenceDrop(a: seq<string>, b: seq<string>, x: string)
    requires Subsequence(a, b)
    ensures Subsequence(a, [x] + b)
  {
    if |a| > 0 {
      assert ([x] + b)[1..] == b;
    }
  }
}
