/** The canonical, versioned user-data snapshot the migrators produce: its
    records, and the builder that leaves every category it is not given
    absent. */
module Snapshot {
  import opened Wrappers
  import opened JavaInt
  import opened JavaFloat
  import opened Users

  /** Health, hunger, experience and mode, in the order of the record's
      constructor. */
  datatype StatusData = StatusData(
    health: Float64,
    maxHealth: Float64,
    healthScale: Float64,
    hunger: Int32,
    saturation: Float32,
    saturationExhaustion: Float32,
    selectedItemSlot: Int32,
    totalExperience: Int32,
    expLevel: Int32,
    expProgress: Float32,
    gameMode: string,
    isFlying: bool)

  /** A serialized item container (inventory or ender chest). */
  datatype ItemData = ItemData(serializedItems: string)

  /** Serialized potion effects. */
  datatype PotionEffectData = PotionEffectData(serializedPotionEffects: string)

  /** `java.util.Date`, as milliseconds since the epoch. */
  datatype Instant = Instant(epochMillis: int)

  /** One advancement: its key and the time each criterion was completed. */
  datatype AdvancementData = AdvancementData(key: string, completedCriteria: map<string, Instant>)

  /** Statistic counts keyed by statistic name, and for the typed statistics
      by material or entity-type name as well. */
  datatype StatisticsData = StatisticsData(
    untypedStatistics: map<string, Int32>,
    blockStatistics: map<string, map<string, Int32>>,
    itemStatistics: map<string, map<string, Int32>>,
    entityStatistics: map<string, map<string, Int32>>)

  /** Where the player stood: world, coordinates and facing. */
  datatype LocationData = LocationData(
    worldName: string,
    worldUuid: Uuid,
    worldEnvironment: string,
    x: Float64,
    y: Float64,
    z: Float64,
    yaw: Float32,
    pitch: Float32)

  /** A built snapshot: each category is present only if it was set. */
  datatype UserData = UserData(
    minecraftVersion: string,
    status: Option<StatusData>,
    inventory: Option<ItemData>,
    enderChest: Option<ItemData>,
    potionEffects: Option<PotionEffectData>,
    advancements: Option<seq<AdvancementData>>,
    statistics: Option<StatisticsData>,
    location: Option<LocationData>)

  /** `UserData.builder(version)`: nothing set yet. The setters are record
      updates of the corresponding field. */
  function Builder(minecraftVersion: string): (d: UserData)
    ensures d.minecraftVersion == minecraftVersion
    ensures d.status.None? && d.inventory.None? && d.enderChest.None? && d.potionEffects.None?
    ensures d.advancements.None? && d.statistics.None? && d.location.None?
  {
    UserData(minecraftVersion, None, None, None, None, None, None, None)
  }
}
