/**
 * The Web.config-backed authentication attribute's two settings: whether
 * HMAC authentication is on ("HmacSecurityEnabled") and the signature
 * timeout in seconds ("HmacSignatureTimeout"). Each is read from the
 * application settings on first use and cached in a nullable field.
 */
module AuthenticationAttributes {
  import opened Wrappers
  import opened Strings
  import opened Int32Parsing
  import opened WebConfig

  const HmacSignatureTimeoutSetting: string := "HmacSignatureTimeout"
  const HmacEnabledSetting: string := "HmacSecurityEnabled"
  const DefaultTimeOutPeriod: Int32 := 600

  /** The enable flag as the settings give it: off only when the setting lower-cases to "false". */
  function HmacEnabledFromSettings(appSettings: AppSettings): bool {
    !(HmacEnabledSetting in appSettings && ToLowerInvariant(appSettings[HmacEnabledSetting]) == "false")
  }

  /** The timeout as the settings give it: 600 without the setting, else what Int32.TryParse leaves in its out value. */
  function TimeOutFromSettings(appSettings: AppSettings): Int32 {
    if HmacSignatureTimeoutSetting in appSettings then Int32TryParse(appSettings[HmacSignatureTimeoutSetting]).1
    else DefaultTimeOutPeriod
  }

  /** "false" in any mix of letter case. */
  predicate SpellsFalse(v: string) {
    && |v| == 5
    && (v[0] == 'f' || v[0] == 'F')
    && (v[1] == 'a' || v[1] == 'A')
    && (v[2] == 'l' || v[2] == 'L')
    && (v[3] == 's' || v[3] == 'S')
    && (v[4] == 'e' || v[4] == 'E')
  }

  /** Lower-casing gives "false" exactly for the case variants of "false". */
  lemma LowersToFalse(v: string)
    ensures ToLowerInvariant(v) == "false" <==> SpellsFalse(v)
  {
    var l := ToLowerInvariant(v);
    if SpellsFalse(v) {
      assert |l| == 5;
      forall i | 0 <= i < 5 ensures l[i] == "false"[i] {
        assert l[i] == LowerChar(v[i]);
      }
    }
    if l == "false" {
      forall i | 0 <= i < 5 ensures LowerChar(v[i]) == "false"[i] {
        assert l[i] == LowerChar(v[i]);
      }
    }
  }

  /**
   * HMAC authentication is off exactly when "HmacSecurityEnabled" is set to
   * "false" in some letter case; a missing setting, "0", "no" or "false "
   * all leave it on.
   */
  lemma EnabledUnlessFalse(appSettings: AppSettings)
    ensures !HmacEnabledFromSettings(appSettings) <==>
            HmacEnabledSetting in appSettings && SpellsFalse(appSettings[HmacEnabledSetting])
  {
    if HmacEnabledSetting in appSettings {
      LowersToFalse(appSettings[HmacEnabledSetting]);
    }
  }

  /** Sample settings: "FALSE" and "False" turn authentication off; nothing else here does. */
  lemma EnabledFlagSamples()
    ensures !HmacEnabledFromSettings(map[HmacEnabledSetting := "FALSE"])
    ensures !HmacEnabledFromSettings(map[HmacEnabledSetting := "False"])
    ensures HmacEnabledFromSettings(map[])
    ensures HmacEnabledFromSettings(map[HmacEnabledSetting := "0"])
    ensures HmacEnabledFromSettings(map[HmacEnabledSetting := "no"])
    ensures HmacEnabledFromSettings(map[HmacEnabledSetting := "false "])
  {
    EnabledUnlessFalse(map[HmacEnabledSetting := "FALSE"]);
    EnabledUnlessFalse(map[HmacEnabledSetting := "False"]);
    EnabledUnlessFalse(map[]);
    EnabledUnlessFalse(map[HmacEnabledSetting := "0"]);
    EnabledUnlessFalse(map[HmacEnabledSetting := "no"]);
    EnabledUnlessFalse(map[HmacEnabledSetting := "false "]);
  }

  /**
   * The timeout is 600 without the setting; with it, the parsed value when
   * it parses (zero and negative values included) and 0 when it does not.
   */
  lemma TimeOutCases(appSettings: AppSettings)
    ensures HmacSignatureTimeoutSetting !in appSettings ==> TimeOutFromSettings(appSettings) == 600
    ensures HmacSignatureTimeoutSetting in appSettings && ParseInt32(appSettings[HmacSignatureTimeoutSetting]).Some? ==>
            TimeOutFromSettings(appSettings) == ParseInt32(appSettings[HmacSignatureTimeoutSetting]).value
    ensures HmacSignatureTimeoutSetting in appSettings && ParseInt32(appSettings[HmacSignatureTimeoutSetting]).None? ==>
            TimeOutFromSettings(appSettings) == 0
  {
  }

  /** Any int written in decimal as the setting is the timeout, whatever its sign. */
  lemma ConfiguredTimeOut(appSettings: AppSettings, n: Int32)
    requires HmacSignatureTimeoutSetting in appSettings
    requires appSettings[HmacSignatureTimeoutSetting] == FormatInt32(n)
    ensures TimeOutFromSettings(appSettings) == n
  {
    ParseFormatted(n);
  }

  /** A setting with no digits at all, such as "ten minutes", gives a timeout of 0, not 600. */
  lemma DigitlessTimeOutIsZero(appSettings: AppSettings)
    requires HmacSignatureTimeoutSetting in appSettings
    requires forall i :: 0 <= i < |appSettings[HmacSignatureTimeoutSetting]| ==> !IsDigit(appSettings[HmacSignatureTimeoutSetting][i])
    ensures TimeOutFromSettings(appSettings) == 0
  {
    if ParseInt32(appSettings[HmacSignatureTimeoutSetting]).Some? {
      ParsedTextHasDigit(appSettings[HmacSignatureTimeoutSetting]);
    }
  }

  /** The attribute's cached settings; None until first read. */
  class HmacWebConfigAuthenticationAttribute {
    var isHmacEnabled: Option<bool>
    var timeOurPeriod: Option<Int32>

    constructor ()
      ensures isHmacEnabled == None && timeOurPeriod == None
    {
      isHmacEnabled := None;
      timeOurPeriod := None;
    }

    /**
     * IsHmacEnabled: computed from the settings on the first read only;
     * later reads return the cached value whatever the settings are then.
     */
    method IsHmacEnabled(appSettings: AppSettings) returns (enabled: bool)
      modifies this`isHmacEnabled
      ensures old(isHmacEnabled).Some? ==> enabled == old(isHmacEnabled).value
      ensures old(isHmacEnabled).None? ==> enabled == HmacEnabledFromSettings(appSettings)
      ensures isHmacEnabled == Some(enabled)
    {
      if isHmacEnabled.None? {
        if HmacEnabledSetting in appSettings && ToLowerInvariant(appSettings[HmacEnabledSetting]) == "false" {
          isHmacEnabled := Some(false);
        } else {
          isHmacEnabled := Some(true);
        }
      }
      enabled := isHmacEnabled.value;
    }

    /**
     * TimeOutPeriod: computed from the settings on the first read only;
     * later reads return the cached value whatever the settings are then.
     */
    method TimeOutPeriod(appSettings: AppSettings) returns (seconds: Int32)
      modifies this`timeOurPeriod
      ensures old(timeOurPeriod).Some? ==> seconds == old(timeOurPeriod).value
      ensures old(timeOurPeriod).None? ==> seconds == TimeOutFromSettings(appSettings)
      ensures timeOurPeriod == Some(seconds)
    {
      if timeOurPeriod.None? {
        var timeOut: Int32 := 600;
        if HmacSignatureTimeoutSetting in appSettings {
          var (_, parsed) := Int32TryParse(appSettings[HmacSignatureTimeoutSetting]);
          timeOut := parsed;
        }
        timeOurPeriod := Some(timeOut);
      }
      seconds := timeOurPeriod.value;
    }
  }
}
