/** The names under which providers are registered and reported. */
module ProviderKinds {

  datatype ProviderKind =
    | Aurora | Arbitrum | Pokt | Binance | Bungee | ZKSync | Publicnode | Base | Zora | Zerion | Coinbase
    | OneInch | Quicknode | Near | Mantle | SolScan | Unichain | Morph | Tenderly | Dune | Wemix | Drpc
    | Syndica | Allnodes | Meld | Monad | Sui | Hiro | CallStatic | Moonbeam | Blast | Rootstock | Lifi
    | Trongrid | Toncenter | Xrpl
    | Generic(name: string)

  function Display(k: ProviderKind): string {
    match k
    case Aurora => "Aurora" case Arbitrum => "Arbitrum" case Pokt => "Pokt" case Binance => "Binance"
    case Wemix => "Wemix" case Bungee => "Bungee" case ZKSync => "zkSync" case Publicnode => "Publicnode"
    case Base => "Base" case Zora => "Zora" case Zerion => "Zerion" case Coinbase => "Coinbase"
    case OneInch => "OneInch" case Quicknode => "Quicknode" case Near => "Near" case Mantle => "Mantle"
    case SolScan => "SolScan" case Unichain => "Unichain" case Morph => "Morph" case Tenderly => "Tenderly"
    case Dune => "Dune" case Drpc => "Drpc" case Syndica => "Syndica" case Allnodes => "Allnodes"
    case Meld => "Meld" case Monad => "Monad" case Sui => "Sui" case Hiro => "Hiro"
    case CallStatic => "CallStatic" case Moonbeam => "Moonbeam" case Blast => "Blast"
    case Rootstock => "Rootstock" case Lifi => "Lifi" case Trongrid => "Trongrid"
    case Toncenter => "Toncenter" case Xrpl => "Xrpl"
    case Generic(name) => name
  }

  /** "Lifi" is missing from the names that are recognized. */
  function FromStr(s: string): ProviderKind {
    match s
    case "Aurora" => Aurora
    case "Arbitrum" => Arbitrum
    case "Pokt" => Pokt
    case "Binance" => Binance
    case "Bungee" => Bungee
    case "zkSync" => ZKSync
    case "Publicnode" => Publicnode
    case "Base" => Base
    case "Zora" => Zora
    case "Zerion" => Zerion
    case "Coinbase" => Coinbase
    case "OneInch" => OneInch
    case "Quicknode" => Quicknode
    case "Near" => Near
    case "Mantle" => Mantle
    case "SolScan" => SolScan
    case "Unichain" => Unichain
    case "Morph" => Morph
    case "Tenderly" => Tenderly
    case "Dune" => Dune
    case "Wemix" => Wemix
    case "Drpc" => Drpc
    case "Syndica" => Syndica
    case "Allnodes" => Allnodes
    case "Meld" => Meld
    case "Monad" => Monad
    case "Sui" => Sui
    case "Hiro" => Hiro
    case "CallStatic" => CallStatic
    case "Moonbeam" => Moonbeam
    case "Blast" => Blast
    case "Rootstock" => Rootstock
    case "Trongrid" => Trongrid
    case "Toncenter" => Toncenter
    case "Xrpl" => Xrpl
    case _ => Generic(s)
  }

  predicate RoundTrips(k: ProviderKind) {
    FromStr(Display(k)) == k
  }

  // The recognized names, a few per solver query.
  lemma RoundTripGroup1()
    ensures RoundTrips(Aurora) && RoundTrips(Arbitrum) && RoundTrips(Pokt) && RoundTrips(Binance) && RoundTrips(Bungee) && RoundTrips(ZKSync)
  {}

  lemma RoundTripGroup2()
    ensures RoundTrips(Publicnode) && RoundTrips(Base) && RoundTrips(Zora) && RoundTrips(Zerion) && RoundTrips(Coinbase)
  {}

  lemma RoundTripGroup3()
    ensures RoundTrips(OneInch) && RoundTrips(Quicknode) && RoundTrips(Near) && RoundTrips(Mantle) && RoundTrips(SolScan)
  {}

  lemma RoundTripGroup4()
    ensures RoundTrips(Unichain) && RoundTrips(Morph) && RoundTrips(Tenderly) && RoundTrips(Dune)
  {}

  lemma RoundTripGroup5()
    ensures RoundTrips(Wemix) && RoundTrips(Drpc) && RoundTrips(Syndica) && RoundTrips(Allnodes)
  {}

  lemma RoundTripGroup6()
    ensures RoundTrips(Meld) && RoundTrips(Monad) && RoundTrips(Sui)
  {}

  lemma RoundTripGroup7()
    ensures RoundTrips(Hiro) && RoundTrips(CallStatic) && RoundTrips(Moonbeam)
  {}

  lemma RoundTripGroup8()
    ensures RoundTrips(Blast) && RoundTrips(Rootstock) && RoundTrips(Trongrid)
  {}

  lemma RoundTripGroup9()
    ensures RoundTrips(Toncenter) && RoundTrips(Xrpl)
  {}

  /**
   * A reported name leads back to the provider it was reported for exactly if the provider is not `Lifi`
   * and not a generic one that carries a recognized name.
   */
  lemma KindRoundTrip(k: ProviderKind)
    ensures RoundTrips(k) <==> k != Lifi && (k.Generic? ==> FromStr(k.name).Generic?)
    ensures FromStr(Display(Lifi)) == Generic("Lifi")
  {
    LifiIsNotKnown();
    if k.Generic? {
      GenericRoundTrip(k.name);
    } else if k == Lifi {
    } else {
      RoundTripGroup1();
      RoundTripGroup2();
      RoundTripGroup3();
      RoundTripGroup4();
      RoundTripGroup5();
      RoundTripGroup6();
      RoundTripGroup7();
      RoundTripGroup8();
      RoundTripGroup9();
    }
  }

  lemma LifiIsNotKnown()
    ensures FromStr(Display(Lifi)) == Generic("Lifi")
  {}

  lemma GenericRoundTrip(name: string)
    ensures FromStr(name).Generic? <==> FromStr(name) == Generic(name)
  {}
}
