/** The application's Web.config as seen through ConfigurationManager. */
module WebConfig {

  /** The appSettings section: key to value. */
  type AppSettings = map<string, string>

  /** A NameValueCollection section such as the secret-key table. */
  type Section = map<string, string>

  datatype Configuration = Configuration(appSettings: AppSettings, sections: map<string, Section>)
}
