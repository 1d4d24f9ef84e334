/**
 * Secret keys and the protocol-strip list read from Web.config: a user's
 * key is looked up in a configuration section (by default
 * "ApiSecretKeys"), and the strip list is the comma-separated
 * "HmacProtocolStripList" application setting.
 */
module WebConfigSecretProvider {
  import opened Strings
  import opened WebConfig

  const DefaultSecretKeySection: string := "ApiSecretKeys"
  const ProtocolStripListSetting: string := "HmacProtocolStripList"

  /** GetSignatureSecretKey(UserId, SecretKeySection): the user's key, "" when the user is not listed. */
  function GetSignatureSecretKeyInSection(config: Configuration, userId: string, secretKeySection: string): (secret: string)
    requires secretKeySection in config.sections
    ensures userId in config.sections[secretKeySection] ==> secret == config.sections[secretKeySection][userId]
    ensures userId !in config.sections[secretKeySection] ==> secret == ""
  {
    var keySection := config.sections[secretKeySection];
    if userId in keySection then keySection[userId] else ""
  }

  /** GetSignatureSecretKey(UserId): the lookup in the default section. */
  function GetSignatureSecretKey(config: Configuration, userId: string): (secret: string)
    requires DefaultSecretKeySection in config.sections
    ensures userId in config.sections[DefaultSecretKeySection] ==> secret == config.sections[DefaultSecretKeySection][userId]
    ensures userId !in config.sections[DefaultSecretKeySection] ==> secret == ""
  {
    GetSignatureSecretKeyInSection(config, userId, DefaultSecretKeySection)
  }

  /** An unlisted user and a user configured with an empty key get the same answer. */
  lemma UnlistedLooksLikeEmptyKey(config: Configuration, userId: string, secretKeySection: string)
    requires secretKeySection in config.sections
    requires userId !in config.sections[secretKeySection]
    ensures GetSignatureSecretKeyInSection(config, userId, secretKeySection) ==
            GetSignatureSecretKeyInSection(config.(sections := config.sections[secretKeySection := config.sections[secretKeySection][userId := ""]]),
                                           userId, secretKeySection)
  {
  }

  /**
   * GetProtocolStripList: empty when the setting is missing or empty,
   * otherwise the setting split on ',' with empty entries kept.
   */
  function GetProtocolStripList(config: Configuration): (list: seq<string>)
    ensures list == [] <==> ProtocolStripListSetting !in config.appSettings || config.appSettings[ProtocolStripListSetting] == ""
    ensures list != [] ==> Join(list, ',') == config.appSettings[ProtocolStripListSetting]
    ensures forall i :: 0 <= i < |list| ==> ',' !in list[i]
  {
    if ProtocolStripListSetting !in config.appSettings || config.appSettings[ProtocolStripListSetting] == "" then []
    else Split(config.appSettings[ProtocolStripListSetting], ',')
  }

  /** A list of comma-free entries written to the setting is read back unchanged. */
  lemma StripListRoundTrip(config: Configuration, entries: seq<string>)
    requires |entries| > 0
    requires forall i :: 0 <= i < |entries| ==> ',' !in entries[i]
    requires Join(entries, ',') != ""
    ensures GetProtocolStripList(config.(appSettings := config.appSettings[ProtocolStripListSetting := Join(entries, ',')])) == entries
  {
    SplitJoin(entries, ',');
  }
}
