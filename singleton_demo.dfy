/** The demo program of the singleton example, as a client of the two classes. */
module SingletonDemo {
  import opened Common
  import opened CacheWithSingleton
  import opened ServiceLocatorModel

  /**
    Registers a fresh cache as "cache", looks it up twice, writes through
    the first handle and reads through the second: both lookups yield the
    same object, so the read sees the write.
  */
  method Run() returns (same: bool, read: string)
    ensures same && read == "value1"
  {
    var slot := new LocatorSlot<Cache>();
    var locator := slot.GetInstance();
    var again := slot.GetInstance();
    assert again == locator;
    var made := new Cache();
    locator.RegisterService("cache", made);
    var first := locator.GetService("cache");
    var second := locator.GetService("cache");
    var cache1, cache2 := first.value, second.value;
    cache1.Put("key1", "value1");
    read := cache2.Get("key1");
    same := cache1 == cache2;
  }
}
