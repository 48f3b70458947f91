/**
  ServiceLocator<T>: a single, lazily created registry of services by name.
  The class's static `instance` pointer becomes the field of a holder
  object, LocatorSlot, since Dafny has no static mutable state.
*/
module ServiceLocatorModel {
  import opened Common

  /** The runtime_error "Service not found". */
  datatype LocatorError = ServiceNotFound

  class ServiceLocator<T> {
    var services: map<string, T>

    /** The private default constructor: no services yet. */
    constructor ()
      ensures services == map[]
    {
      services := map[];
    }

    /** `services[name] = std::move(service)`: replaces any earlier service under `name` and no other. */
    method RegisterService(name: string, service: T)
      modifies this
      ensures services == old(services)[name := service]
      ensures name in services && services[name] == service
      ensures forall n :: n != name ==> (n in services <==> n in old(services)) && (n in services ==> services[n] == old(services)[n])
    {
      services := services[name := service];
    }

    /** The stored service for a registered name, the "Service not found" error otherwise; the registry is unchanged. */
    method GetService(name: string) returns (r: Result<T, LocatorError>)
      ensures r.Success? <==> name in services
      ensures r.Success? ==> r.value == services[name]
      ensures r.Failure? ==> r.error == ServiceNotFound
    {
      if name in services {
        return Success(services[name]);
      }
      return Failure(ServiceNotFound);
    }
  }

  /** The static member `ServiceLocator<T>::instance`, null until first use. */
  class LocatorSlot<T> {
    var instance: ServiceLocator?<T>

    constructor ()
      ensures instance == null
    {
      instance := null;
    }

    /** getInstance: creates the locator on the first call only and returns the same one ever after. */
    method GetInstance() returns (locator: ServiceLocator<T>)
      modifies this
      ensures instance == locator
      ensures old(instance) != null ==> locator == old(instance)
      ensures old(instance) == null ==> fresh(locator) && locator.services == map[]
    {
      if instance == null {
        instance := new ServiceLocator<T>();
      }
      locator := instance;
    }
  }
}
