/** The configuration the log, its segments and their indexes are built with. */
module LogConfig {

  /** MaxStoreBytes and MaxIndexBytes bound one segment's store and index;
      InitialOffset is the base offset of the first segment of an empty log. */
  datatype Config = Config(maxStoreBytes: nat, maxIndexBytes: nat, initialOffset: nat)
}
