/** Which names set which option: the spellings of the source, in any case. */
module ConnectionKeywords {
  import opened Wrappers
  import opened Text
  import opened ConnectionOptions

  // The names of an option as the source spells them.
  function Spellings(id: OptionId): seq<string> {
    match id
    case Odbc => ["ODBC"]
    case Host => ["HOST", "Data Source", "Server", "Address", "Network Address"]
    case Uid => ["UID", "User ID", "UserId"]
    case Pwd => ["PWD", "Password"]
    case Database => ["Database", "Initial Catalog"]
    case Charset => ["Charset"]
    case Encrypt => ["Encrypt"]
    case PersistSecurityInfo => ["PersistSecurityInfo", "Persist Security Info"]
    case ConnectionTimeout =>
      ["ConnectTimeout", "Connect Timeout", "ConnectionTimeout", "Connection Timeout"]
    case ConnectionLifetime => ["ConnectionLifetime", "Connection Lifetime"]
    case MinPoolSize => ["MinPoolSize", "Min Pool Size"]
    case MaxPoolSize => ["MaxPoolSize", "Max Pool Size"]
    case Pooling => ["Pooling"]
    case Enlist => ["Enlist"]
    case RoundRobin => ["RoundRobin", "Round Robin"]
    case LogEnable => ["Log_enable"]
  }

  predicate IsSpelling(name: string, id: OptionId) {
    exists i :: 0 <= i < |Spellings(id)| && SameButCase(name, Spellings(id)[i])
  }

  // Names that differ in case only are the same name, for every keyword table.
  lemma CaseIsIgnored(p: Platform, a: string, b: string)
    requires SameButCase(a, b)
    ensures GetOption(p, a) == GetOption(p, b)
    ensures IsSecuritySensitive(a) <==> IsSecuritySensitive(b)
  {
    UpperExactly(a, b);
  }

  // ---------------------------------------------------------------------------------------
  // The upper-case forms
  // ---------------------------------------------------------------------------------------

  ghost function UpperForms(id: OptionId): seq<string> {
    match id
    case Odbc => ["ODBC"]
    case Host => ["HOST", "DATA SOURCE", "SERVER", "ADDRESS", "NETWORK ADDRESS"]
    case Uid => ["UID", "USER ID", "USERID"]
    case Pwd => ["PWD", "PASSWORD"]
    case Database => ["DATABASE", "INITIAL CATALOG"]
    case Charset => ["CHARSET"]
    case Encrypt => ["ENCRYPT"]
    case PersistSecurityInfo => ["PERSISTSECURITYINFO", "PERSIST SECURITY INFO"]
    case ConnectionTimeout =>
      ["CONNECTTIMEOUT", "CONNECT TIMEOUT", "CONNECTIONTIMEOUT", "CONNECTION TIMEOUT"]
    case ConnectionLifetime => ["CONNECTIONLIFETIME", "CONNECTION LIFETIME"]
    case MinPoolSize => ["MINPOOLSIZE", "MIN POOL SIZE"]
    case MaxPoolSize => ["MAXPOOLSIZE", "MAX POOL SIZE"]
    case Pooling => ["POOLING"]
    case Enlist => ["ENLIST"]
    case RoundRobin => ["ROUNDROBIN", "ROUND ROBIN"]
    case LogEnable => ["LOG_ENABLE"]
  }

  lemma UpperOfHost()
    ensures ToUpper("HOST") == "HOST" && ToUpper("Data Source") == "DATA SOURCE"
    ensures ToUpper("Server") == "SERVER" && ToUpper("Address") == "ADDRESS"
    ensures ToUpper("Network Address") == "NETWORK ADDRESS"
  {
  }

  lemma UpperOfUser()
    ensures ToUpper("UID") == "UID" && ToUpper("User ID") == "USER ID"
    ensures ToUpper("UserId") == "USERID"
    ensures ToUpper("PWD") == "PWD" && ToUpper("Password") == "PASSWORD"
  {
  }

  lemma UpperOfDatabase()
    ensures ToUpper("Database") == "DATABASE" && ToUpper("Initial Catalog") == "INITIAL CATALOG"
    ensures ToUpper("Charset") == "CHARSET" && ToUpper("Encrypt") == "ENCRYPT"
    ensures ToUpper("ODBC") == "ODBC"
  {
  }

  lemma UpperOfPersist()
    ensures ToUpper("PersistSecurityInfo") == "PERSISTSECURITYINFO"
    ensures ToUpper("Persist Security Info") == "PERSIST SECURITY INFO"
  {
  }

  lemma UpperOfTimeout()
    ensures ToUpper("ConnectTimeout") == "CONNECTTIMEOUT"
    ensures ToUpper("Connect Timeout") == "CONNECT TIMEOUT"
    ensures ToUpper("ConnectionTimeout") == "CONNECTIONTIMEOUT"
    ensures ToUpper("Connection Timeout") == "CONNECTION TIMEOUT"
  {
  }

  lemma UpperOfLifetime()
    ensures ToUpper("ConnectionLifetime") == "CONNECTIONLIFETIME"
    ensures ToUpper("Connection Lifetime") == "CONNECTION LIFETIME"
  {
  }

  lemma UpperOfPoolSize()
    ensures ToUpper("MinPoolSize") == "MINPOOLSIZE" && ToUpper("Min Pool Size") == "MIN POOL SIZE"
    ensures ToUpper("MaxPoolSize") == "MAXPOOLSIZE" && ToUpper("Max Pool Size") == "MAX POOL SIZE"
  {
  }

  lemma UpperOfFlags()
    ensures ToUpper("Pooling") == "POOLING" && ToUpper("Enlist") == "ENLIST"
    ensures ToUpper("RoundRobin") == "ROUNDROBIN" && ToUpper("Round Robin") == "ROUND ROBIN"
    ensures ToUpper("Log_enable") == "LOG_ENABLE"
  {
  }

  lemma UpperOfSpelling(id: OptionId, i: nat)
    requires i < |Spellings(id)|
    ensures |UpperForms(id)| == |Spellings(id)| && UpperForms(id)[i] == ToUpper(Spellings(id)[i])
  {
    match id
    case Host => UpperOfHost();
    case Uid | Pwd => UpperOfUser();
    case Odbc | Database | Charset | Encrypt => UpperOfDatabase();
    case PersistSecurityInfo => UpperOfPersist();
    case ConnectionTimeout => UpperOfTimeout();
    case ConnectionLifetime => UpperOfLifetime();
    case MinPoolSize | MaxPoolSize => UpperOfPoolSize();
    case Pooling | Enlist | RoundRobin | LogEnable => UpperOfFlags();
  }

  lemma ServerKeywords(u: string, id: OptionId)
    requires id == Host && u in UpperForms(id)
    ensures u in Keywords() && Keywords()[u] == id
  {
  }

  lemma UserKeywords(u: string, id: OptionId)
    requires (id == Uid || id == Pwd || id == Database) && u in UpperForms(id)
    ensures u in Keywords() && Keywords()[u] == id
  {
  }

  lemma SessionKeywords(u: string, id: OptionId)
    requires (id == Charset || id == Encrypt || id == PersistSecurityInfo) && u in UpperForms(id)
    ensures u in Keywords() && Keywords()[u] == id
  {
  }

  lemma TimeoutKeywords(u: string, id: OptionId)
    requires (id == ConnectionTimeout || id == ConnectionLifetime) && u in UpperForms(id)
    ensures u in Keywords() && Keywords()[u] == id
  {
  }

  lemma PoolSizeKeywords(u: string, id: OptionId)
    requires (id == MinPoolSize || id == MaxPoolSize) && u in UpperForms(id)
    ensures u in Keywords() && Keywords()[u] == id
  {
  }

  lemma FlagKeywords(u: string, id: OptionId)
    requires (id == Odbc || id == Pooling || id == Enlist || id == RoundRobin || id == LogEnable) && u in UpperForms(id)
    ensures u in Keywords() && Keywords()[u] == id
  {
  }

  lemma FormsAreKeywords(u: string, id: OptionId)
    requires u in UpperForms(id)
    ensures u in Keywords() && Keywords()[u] == id
  {
    match id
    case Host => ServerKeywords(u, id);
    case Uid | Pwd | Database => UserKeywords(u, id);
    case Charset | Encrypt | PersistSecurityInfo => SessionKeywords(u, id);
    case ConnectionTimeout | ConnectionLifetime => TimeoutKeywords(u, id);
    case MinPoolSize | MaxPoolSize => PoolSizeKeywords(u, id);
    case Odbc | Pooling | Enlist | RoundRobin | LogEnable => FlagKeywords(u, id);
  }

  lemma KeywordsAreForms(u: string)
    requires u in Keywords()
    ensures u in UpperForms(Keywords()[u])
  {
  }

  lemma FormOfName(name: string, spellings: seq<string>, forms: seq<string>)
    requires |forms| == |spellings|
    requires forall i :: 0 <= i < |forms| ==> forms[i] == ToUpper(spellings[i])
    ensures ToUpper(name) in forms <==>
            exists i :: 0 <= i < |spellings| && SameButCase(name, spellings[i])
  {
    forall i | 0 <= i < |spellings|
      ensures forms[i] == ToUpper(name) <==> SameButCase(name, spellings[i])
    {
      UpperExactly(name, spellings[i]);
    }
  }

  lemma UpperOfName(name: string, id: OptionId)
    ensures ToUpper(name) in UpperForms(id) <==> IsSpelling(name, id)
  {
    var spellings, forms := Spellings(id), UpperForms(id);
    UpperOfSpelling(id, 0);
    forall i | 0 <= i < |forms|
      ensures forms[i] == ToUpper(spellings[i])
    {
      UpperOfSpelling(id, i);
    }
    FormOfName(name, spellings, forms);
  }

  // ---------------------------------------------------------------------------------------
  // Which names set which option
  // ---------------------------------------------------------------------------------------

  // A name sets an option exactly when it is one of the spellings of that option, in any case.
  lemma SpellingsExactly(p: Platform, name: string, id: OptionId)
    requires p.keywords == Keywords()
    ensures GetOption(p, name) == Some(id) <==> IsSpelling(name, id)
  {
    var u := ToUpper(name);
    UpperOfName(name, id);
    if u in Keywords() {
      KeywordsAreForms(u);
    }
    if u in UpperForms(id) {
      FormsAreKeywords(u, id);
    }
  }

  // What is withheld from the secure string are the spellings of the password.
  lemma WithheldExactly(p: Platform, name: string)
    requires p.keywords == Keywords()
    ensures IsSecuritySensitive(name) <==> IsSpelling(name, Pwd)
  {
    KeywordsWithholdPassword(p);
    SpellingsExactly(p, name, Pwd);
  }

  // A keyword in any case that the source never lists is not known.
  lemma UnknownExactly(p: Platform, name: string)
    requires p.keywords == Keywords()
    ensures GetOption(p, name).None? <==> forall id: OptionId :: !IsSpelling(name, id)
  {
    forall id: OptionId
      ensures GetOption(p, name) == Some(id) <==> IsSpelling(name, id)
    {
      SpellingsExactly(p, name, id);
    }
    if GetOption(p, name).Some? {
      assert IsSpelling(name, GetOption(p, name).value);
    }
  }
}
