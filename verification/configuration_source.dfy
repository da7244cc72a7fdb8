/** Lazily resolved configuration properties (config/ConfigurationSource.kt). */
module ConfigurationSource {
  import opened Exceptions
  import opened Extensions

  /** The delegated Kotlin property: its name and, if it has one, its `@Key` annotation. */
  datatype PropertyRef = PropertyRef(name: string, key: Option<string>)

  /** The properties-file key: the annotation's key, else the property name. */
  function LookupKey(property: PropertyRef): string
  {
    if property.key.Some? then property.key.value else property.name
  }

  /** `ConfigurableProperty`: resolves its value on the first successful read
      and returns that value from then on. */
  class ConfigurableProperty<T> {
    const defaultValue: Option<T>
    const conversion: string -> Result<T>
    var initialized: bool
    var value: Option<T>

    ghost predicate Valid()
      reads this
    {
      initialized ==> value.Some?
    }

    constructor (defaultValue: Option<T>, conversion: string -> Result<T>)
      ensures Valid() && !initialized && value.None?
      ensures this.defaultValue == defaultValue && this.conversion == conversion
    {
      this.defaultValue := defaultValue;
      this.conversion := conversion;
      initialized := false;
      value := None;
    }

    /** `getValue`: the first successful call resolves the property as
        `retrieve` does under its lookup key and caches it; every later call
        returns the cached value whatever the properties now hold. A failing
        call caches nothing, so the next call looks the property up again. */
    method GetValue(properties: map<string, string>, property: PropertyRef) returns (r: Result<T>)
      requires Valid()
      modifies this
      ensures Valid()
      ensures old(initialized) ==> r == Ok(old(value).value) && initialized && value == old(value)
      ensures !old(initialized) ==> r == Retrieve(properties, LookupKey(property), defaultValue, conversion)
      ensures !old(initialized) && r.Ok? ==> initialized && value == Some(r.value)
      ensures !old(initialized) && r.Err? ==> !initialized && value == old(value)
    {
      if !initialized {
        var key := LookupKey(property);
        var actualValue: T;
        if key in properties {
          actualValue :- conversion(properties[key]);
        } else if defaultValue.Some? {
          actualValue := defaultValue.value;
        } else {
          return Err(Misconfiguration(PropertyIsRequiredButMissing(key)));
        }
        value := Some(actualValue);
        initialized := true;
      }
      r := Ok(value.value);
    }
  }

  /** `property(defaultValue, conversion)`. */
  method NewProperty<T>(defaultValue: Option<T>, conversion: string -> Result<T>) returns (p: ConfigurableProperty<T>)
    ensures fresh(p) && p.Valid() && !p.initialized
    ensures p.defaultValue == defaultValue && p.conversion == conversion
  {
    p := new ConfigurableProperty(defaultValue, conversion);
  }

  /** `property(defaultValue)`: the identity conversion, which never fails. */
  method NewStringProperty(defaultValue: Option<string>) returns (p: ConfigurableProperty<string>)
    ensures fresh(p) && p.Valid() && !p.initialized
    ensures p.defaultValue == defaultValue && forall s :: p.conversion(s) == Ok(s)
  {
    p := new ConfigurableProperty(defaultValue, s => Ok(s));
  }
}
