/** The property helpers of utils/Extensions.kt: `retrieve` on a properties
    table, and `associateNotNull`. */
module Extensions {
  import opened Exceptions

  /** `PROPERTY_IS_REQUIRED_BUT_MISSING(name)`. */
  function PropertyIsRequiredButMissing(name: string): string
  {
    "The property '" + name + "' is required, please add it to your properties file."
  }

  /** `Properties.retrieve(name, default, cast)`. The table holds the defined
      properties; a cast that throws is one that returns an error. */
  function Retrieve<T>(properties: map<string, string>, name: string, default: Option<T>,
                       cast: string -> Result<T>): Result<T>
  {
    if name in properties then cast(properties[name])
    else if default.Some? then Ok(default.value)
    else Err(Misconfiguration(PropertyIsRequiredButMissing(name)))
  }

  /** The three outcomes of `retrieve`, and their precedence: a defined
      property is cast whatever the default, the default is used only for an
      undefined one, and only an undefined property without a default is a
      misconfiguration. */
  lemma RetrieveOutcomes<T>(properties: map<string, string>, name: string, default: Option<T>,
                            cast: string -> Result<T>)
    ensures name in properties ==>
      forall other: Option<T> :: Retrieve(properties, name, other, cast) == cast(properties[name])
    ensures name !in properties ==>
      forall other: string -> Result<T> :: Retrieve(properties, name, default, other) == Retrieve(properties, name, default, cast)
    ensures name !in properties && default.Some? ==> Retrieve(properties, name, default, cast) == Ok(default.value)
    ensures name !in properties ==>
      (Retrieve(properties, name, default, cast).Err? <==> default.None?)
    ensures name !in properties && default.None? ==>
      Retrieve(properties, name, default, cast) == Err(Misconfiguration(PropertyIsRequiredButMissing(name)))
  {
  }

  /** `Properties.retrieve(name, default)`: `retrieve` with the identity cast. */
  function RetrieveString(properties: map<string, string>, name: string, default: Option<string>): Result<string>
  {
    Retrieve(properties, name, default, s => Ok(s))
  }

  /** The string form never fails on a defined property and returns its text
      verbatim; otherwise it behaves as `retrieve`. */
  lemma RetrieveStringOutcomes(properties: map<string, string>, name: string, default: Option<string>)
    ensures name in properties ==> RetrieveString(properties, name, default) == Ok(properties[name])
    ensures name !in properties && default.Some? ==> RetrieveString(properties, name, default) == Ok(default.value)
    ensures name !in properties && default.None? ==>
      RetrieveString(properties, name, default) == Err(Misconfiguration(PropertyIsRequiredButMissing(name)))
  {
  }

  /** `operation(x)` is a pair with key `k`. */
  predicate Defines<T, K(==), V>(operation: T -> Option<(K, V)>, x: T, k: K)
  {
    operation(x).Some? && operation(x).value.0 == k
  }

  /** `associateNotNull(operation)`: `mapNotNull(operation).toMap()`, the
      pairs entered in order so that a later pair overwrites an earlier one. */
  function AssociateNotNull<T, K, V>(xs: seq<T>, operation: T -> Option<(K, V)>): map<K, V>
  {
    if xs == [] then map[]
    else
      var m := AssociateNotNull(xs[..|xs| - 1], operation);
      match operation(xs[|xs| - 1])
      case None => m
      case Some(pair) => m[pair.0 := pair.1]
  }

  /** The last element's pair, if any, is entered over the pairs before it. */
  lemma AssociateNotNullLastStep<T, K, V>(xs: seq<T>, operation: T -> Option<(K, V)>)
    requires xs != []
    ensures var mi := AssociateNotNull(xs[..|xs| - 1], operation);
      AssociateNotNull(xs, operation)
      == if operation(xs[|xs| - 1]).None? then mi
         else mi[operation(xs[|xs| - 1]).value.0 := operation(xs[|xs| - 1]).value.1]
  {
  }

  /** `associateNotNull` keeps exactly the keys of the non-null pairs. */
  lemma {:induction false} AssociateNotNullKeys<T, K, V>(xs: seq<T>, operation: T -> Option<(K, V)>)
    ensures forall k :: k in AssociateNotNull(xs, operation) <==>
      exists i :: 0 <= i < |xs| && Defines(operation, xs[i], k)
  {
    if xs != [] {
      var init := xs[..|xs| - 1];
      var last := |xs| - 1;
      AssociateNotNullKeys(init, operation);
      AssociateNotNullLastStep(xs, operation);
      var m := AssociateNotNull(xs, operation);
      var mi := AssociateNotNull(init, operation);
      forall k
        ensures k in m <==> exists i :: 0 <= i < |xs| && Defines(operation, xs[i], k)
      {
        if k in m && !Defines(operation, xs[last], k) {
          assert k in mi;
          var i :| 0 <= i < |init| && Defines(operation, init[i], k);
          assert init[i] == xs[i];
        }
        if exists i :: 0 <= i < |xs| && Defines(operation, xs[i], k) {
          var i :| 0 <= i < |xs| && Defines(operation, xs[i], k);
          if i < last {
            assert init[i] == xs[i];
            assert Defines(operation, init[i], k);
          }
        }
      }
    }
  }

  /** A key maps to the value of its last pair. */
  lemma {:induction false} AssociateNotNullLastWins<T, K, V>(xs: seq<T>, operation: T -> Option<(K, V)>)
    ensures forall i, k :: (0 <= i < |xs| && Defines(operation, xs[i], k)
                            && forall j :: i < j < |xs| ==> !Defines(operation, xs[j], k))
                           ==> k in AssociateNotNull(xs, operation)
                               && AssociateNotNull(xs, operation)[k] == operation(xs[i]).value.1
  {
    if xs != [] {
      var init := xs[..|xs| - 1];
      var last := |xs| - 1;
      AssociateNotNullLastWins(init, operation);
      AssociateNotNullLastStep(xs, operation);
      forall i, k | 0 <= i < |xs| && Defines(operation, xs[i], k)
                    && forall j :: i < j < |xs| ==> !Defines(operation, xs[j], k)
        ensures k in AssociateNotNull(xs, operation)
                && AssociateNotNull(xs, operation)[k] == operation(xs[i]).value.1
      {
        if i < last {
          assert !Defines(operation, xs[last], k);
          assert init[i] == xs[i];
          assert forall j :: i < j < |init| ==> init[j] == xs[j];
        }
      }
    }
  }
}
