/** The flags and limits a `Scout` is constructed with. They are fixed for
    the life of the object, so the model passes them as one immutable value. */
module ScoutConfig {

  datatype Config = Config(
    checkVariants: bool,   // derive local-parts from person names
    checkPrefixes: bool,   // try role prefixes when no names are given
    checkCatchAll: bool,   // run the catch-all detector after a 250 reply
    normalize: bool,       // transliterate, lower-case and strip name tokens
    numThreads: nat,       // probe pool size (concurrency is not modelled)
    numBulkThreads: nat,   // bulk pool size (concurrency is not modelled)
    smtpTimeout: nat)      // seconds per connection (time is not modelled)

  /** The constructor's default arguments. */
  const DefaultConfig: Config := Config(true, true, true, true, 5, 3, 2)
}
