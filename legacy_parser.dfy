/** What is still usable of the older translator (LessXaml.LessXamlParser): its
    value formatting. Its `Translate` only configures the grammar (see
    `Rules.OldTranslateRules`) before its conversion fails. */
module LegacyParser {
  import opened Text

  const DynamicPrefix := "{DynamicResource "
  const StaticPrefix := "{StaticResource "

  /** `FormatValue`: `**x` names a dynamic resource, `*x` a static one, and any
      other value is kept as it is. */
  function FormatValue(value: string): (r: string)
    ensures StartsWith(value, "**") ==> r == DynamicPrefix + value[2..] + "}"
    ensures !StartsWith(value, "**") && StartsWith(value, "*") ==> r == StaticPrefix + value[1..] + "}"
    ensures !StartsWith(value, "*") ==> r == value
  {
    if StartsWith(value, "**") then DynamicPrefix + value[2..] + "}"
    else if StartsWith(value, "*") then StaticPrefix + value[1..] + "}"
    else value
  }

  lemma FormatDynamic(x: string)
    ensures FormatValue("**" + x) == "{DynamicResource " + x + "}"
  {
    assert ("**" + x)[..2] == "**";
    assert ("**" + x)[2..] == x;
  }

  lemma FormatStatic(x: string)
    requires !StartsWith(x, "*")
    ensures FormatValue("*" + x) == "{StaticResource " + x + "}"
  {
    assert ("*" + x)[..1] == "*";
    assert ("*" + x)[1..] == x;
    assert !StartsWith("*" + x, "**") by {
      if |x| > 0 {
        assert ("*" + x)[1] == x[0] && x[..1] == [x[0]];
      }
    }
  }

  /** A formatted resource reference starts with `{`, so formatting it again
      leaves it alone. */
  lemma FormatIdempotent(value: string)
    ensures FormatValue(FormatValue(value)) == FormatValue(value)
  {
    var r := FormatValue(value);
    if StartsWith(value, "*") {
      assert r[0] == '{';
      assert !StartsWith(r, "*") by {
        assert r[..1][0] == r[0];
      }
    }
  }
}
