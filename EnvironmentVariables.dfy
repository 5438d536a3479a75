/** EnvironmentVariable: a key/value pair of a pipeline or agent, with a
    secured flag (its value is hidden) and a deletable flag. Keys and values
    are Java Strings and may be null. */
module EnvironmentVariables {
  import opened Common

  class EnvironmentVariable {
    var key: Option<string>
    var value: Option<string>
    var isSecured: bool
    var isDeletable: bool

    /** The no-argument constructor: fields at Java's defaults, then deletable. */
    constructor ()
      ensures key.None? && value.None?
      ensures !isSecured && isDeletable
    {
      key, value := None, None;
      isSecured, isDeletable := false, false;
      new;
      SetDeletable(true);
    }

    /** The (key, value) constructor: both stored, then deletable; never secured. */
    constructor WithKeyValue(key: Option<string>, value: Option<string>)
      ensures this.key == key && this.value == value
      ensures !isSecured && isDeletable
    {
      this.key, this.value := key, value;
      isSecured, isDeletable := false, false;
      new;
      SetDeletable(true);
    }

    function GetKey(): Option<string>
      reads this
    {
      key
    }

    function GetValue(): Option<string>
      reads this
    {
      value
    }

    function IsSecured(): bool
      reads this
    {
      isSecured
    }

    function IsDeletable(): bool
      reads this
    {
      isDeletable
    }

    method SetKey(value: Option<string>)
      modifies this
      ensures GetKey() == value
      ensures this.value == old(this.value) && isSecured == old(isSecured) && isDeletable == old(isDeletable)
    {
      key := value;
    }

    method SetValue(value: Option<string>)
      modifies this
      ensures GetValue() == value
      ensures key == old(key) && isSecured == old(isSecured) && isDeletable == old(isDeletable)
    {
      this.value := value;
    }

    method SetSecured(value: bool)
      modifies this
      ensures IsSecured() == value
      ensures key == old(key) && this.value == old(this.value) && isDeletable == old(isDeletable)
    {
      isSecured := value;
    }

    method SetDeletable(deletable: bool)
      modifies this
      ensures IsDeletable() == deletable
      ensures key == old(key) && value == old(value) && isSecured == old(isSecured)
    {
      isDeletable := deletable;
    }
  }

  /** A variable built from a key and a value stays unsecured through any edit
      of its key and value, until SetSecured is called. */
  method UnsecuredUntilSet(key: Option<string>, value: Option<string>, newKey: Option<string>, newValue: Option<string>)
    returns (before: bool, after: bool)
    ensures !before && after
  {
    var v := new EnvironmentVariable.WithKeyValue(key, value);
    v.SetKey(newKey);
    v.SetValue(newValue);
    before := v.IsSecured();
    v.SetSecured(true);
    after := v.IsSecured();
  }
}
